# Workout interval timer engine, in Dafny

This project models the engine of a workout interval timer app. The engine is
the `useTimer` hook, `hooks/useTimer.tsx`, together with its `mm:ss` formatter,
`utils/format-time.ts`. The hook does three jobs:

- **Sequence builder:** it turns a list of rounds (`repeat` × `steps`) into one
  flat step list. The list always starts with a single PREPARE step. A parallel
  step→round map goes with it, along with the total number of rounds.
- **State machine:** it runs through that list against the clock. The state is
  the step index, the remaining milliseconds, the running and popup flags, the
  step start, the work start, the paused total and the pause start. The
  operations are `tick` (one animation frame), `start`, `stop` (pause),
  `finish`, `reset` and `setShowPopup`.
- **Read-outs:** on every render it derives remaining seconds, a minutes/seconds
  split, elapsed work seconds, the current round and the step progress.

Files and modules:

- `sequence_builder.dfy` (`SequenceBuilder`): the step, step type and round
  datatypes. The builder is the method `Build`, written with the source's nested
  loops. It is proved equal to the recursive definitions `Sequence`, `RoundMap`
  and `TotalRepeats`, and lemmas about those definitions give lengths, contents,
  bounds and ordering.
- `timer_engine.dfy` (`TimerEngine`): a `Snapshot` datatype holds the hook's
  state. Each operation is a pure transition function (`TickNext`, `StartNext`,
  `StopNext`, `FinishNext`, `Initial`). `Run` applies a list of events. The
  invariant `Consistent` holds along every run whose clock does not go
  backwards. The class `Timer` holds the same fields and updates them in place,
  and each of its methods is proved to change the state exactly as the matching
  transition function says.
- `timer_readouts.dfy` (`TimerReadouts`): the derived values and their
  properties. Two complete traces are included: a finished one-step workout, and
  a pause during preparation.
- `format_time.dfy` (`FormatTime`): `toString`, `padStart(2, "0")`, the
  formatter, and a parser that reads the output back.
- `options.dfy` (`Optional`): `Option`. `None` stands for the value `0` that the
  source uses to mean "unset" for `workStart` and `pauseStart`. The two are
  equivalent because clock readings are positive: the invariant `Consistent`
  requires a positive clock and positive recorded instants.

The clock is a parameter. Every operation that calls `performance.now()` takes
the reading `now`, in whole milliseconds. State and refs are updated at once,
so the hook's `useEffect` mirrors of state into refs have nothing left to do.

Behaviour of the code worth knowing:

- **Zero-length steps.** A frame moves at most one step, so a zero-length step
  is current for exactly one frame (`ZeroLengthStepLastsOneFrame`).
- **Round numbers.** Every repeat gets its own number, not every round
  definition: one round of repeat 2 with two steps gives the map
  `[0,1,1,2,2]` (`IntervalsExample`), while two rounds of repeat 2 with one
  step each give `[0,1,2,3,4]`.
- **Finishing.** The last frame keeps the index on the last step and sets
  `remainingMs` to 0, `isRunning` to false and `showPopup` to true
  (`TickEnds`).
- **Pauses during preparation.** They are added to `pausedAccumulated` before
  the work start is recorded. Elapsed work time is not clamped, so it can read
  negative (`PauseBeforeWorkCountsAgainstWork`).
- **Background time.** There is no compensation for time spent suspended:
  the next frame simply reads the clock.

## Model

| member | source | states |
|---|---|---|
| SequenceBuilder.Build | hooks/useTimer.tsx:17-41 | the nested loops return exactly `Sequence(rounds, prepare)`, `RoundMap(rounds)` and `totalRounds = max(0, roundNum - 1)`, which is the sum of max(0, repeat) |
| SequenceBuilder.SequenceShape | hooks/useTimer.tsx:17-39 | the step list and the round map have the same length, 1 + the sum of max(0, repeat) × \|steps\|; entry 0 is PREPARE with the given duration, in round 0; every map entry lies in [0, totalRounds] and the map never decreases |
| SequenceBuilder.BodyLength | hooks/useTimer.tsx:26-31 | the rounds expand to the sum of max(0, repeat) × \|steps\| steps, with one round number per step |
| SequenceBuilder.BodyRoundsRange | hooks/useTimer.tsx:24-33 | the round numbers of the expanded rounds lie in [1, totalRounds] and are non-decreasing |
| SequenceBuilder.CopiesAt | hooks/useTimer.tsx:27-31 | entry p × \|steps\| + i of a round's expansion is step i of the round, for each repeat p |
| SequenceBuilder.TagsAt | hooks/useTimer.tsx:24-33 | every step of repeat p of a round carries round number first + p, so numbers advance once per repeat, not once per step |
| SequenceBuilder.LastRoundStep | hooks/useTimer.tsx:26-33 | step i of repeat p of the last round sits at index (length built for the earlier rounds) + p × \|steps\| + i of the step list |
| SequenceBuilder.LastRoundNumber | hooks/useTimer.tsx:26-34 | the same position of the round map holds (earlier total rounds) + 1 + p: the number goes up once per repeat |
| SequenceBuilder.SkippedRound | hooks/useTimer.tsx:27-32 | a round with repeat <= 0 adds no steps, no map entries and no round number |
| SequenceBuilder.IntervalsExample | hooks/useTimer.tsx:17-41 | one round with repeat 2 of (work 3 s, rest 2 s) and no preparation gives kinds PREPARE, WORK, REST, WORK, REST, round map [0,1,1,2,2] and 2 rounds |
| TimerEngine.Initial | hooks/useTimer.tsx:46-59 | the mount state and the state after `reset` (lines 196-206): index 0, the first step's full duration in ms, not running, no popup, no work start, no pause, paused total 0 |
| TimerEngine.TimeLeft | hooks/useTimer.tsx:106-108 | the time left that a frame computes is at most the step's duration once the step has started, and positive exactly while `now` is before step start + duration |
| TimerEngine.PausedSoFar | hooks/useTimer.tsx:155-158 | the paused total with a pending pause folded in: unchanged without a pending pause, otherwise larger by exactly `now` - pause start, as `start` and `finish` (lines 187-190) fold it |
| TimerEngine.Clamp | hooks/useTimer.tsx:163-167 | the resume clamp lies in [0, duration], leaves values already in range unchanged, and sends negatives to 0 and overlong values to the duration |
| TimerEngine.TickNext | hooks/useTimer.tsx:97-139 | one frame keeps the index inside the sequence and moves it by at most one; it never touches the pause fields; it sets the work start only if unset, only to `now`, and exactly when it leaves a PREPARE step for a WORK step; it can stop the timer but never starts it |
| TimerEngine.StartNext | hooks/useTimer.tsx:151-175 | no-op when running or when the sequence is empty; otherwise it sets running, clears the pause start, adds the pending pause to the paused total, and sets the step start so that the time left at `now` equals the clamped remaining time; nothing else changes |
| TimerEngine.StopNext | hooks/useTimer.tsx:177-182 | afterwards the timer is not running; if it was running the pause start is `now`, otherwise nothing changes; the step index and remaining time are never touched |
| TimerEngine.FinishNext | hooks/useTimer.tsx:184-194 | from any state: not running, popup shown, no pending pause, the pending pause folded into the paused total; nothing else changes |
| TimerEngine.Apply | hooks/useTimer.tsx:97-206 | no event takes the step index out of the sequence |
| TimerEngine.Run | hooks/useTimer.tsx:113-134 | after any run of frames and control calls the step index is still inside the sequence, so the guard at lines 101-104 never fires |
| TimerEngine.InitialConsistent | hooks/useTimer.tsx:46-59 | the state on mount satisfies the engine invariant |
| TimerEngine.ApplyConsistent | hooks/useTimer.tsx:97-206 | with a clock that does not go backwards, each event keeps the invariant: index in range, remaining time in [0, step duration], recorded instants in the past, paused total >= 0, no pending pause while running |
| TimerEngine.LastClock | hooks/useTimer.tsx:98-187 | the last clock reading of a run never lies before the reading the run started from, when the readings are monotonic |
| TimerEngine.RunConsistent | hooks/useTimer.tsx:97-206 | every state reached by a run with a monotonic clock satisfies that invariant at the run's last clock reading: every recorded instant lies at or before that reading |
| TimerEngine.WorkStartSetOnce | hooks/useTimer.tsx:119-125 | once the work start is recorded, no run without `reset` changes it |
| TimerEngine.IndexNeverBack | hooks/useTimer.tsx:113-129 | without `reset`, the step index never decreases and grows by at most one per event |
| TimerEngine.TickWithinStep | hooks/useTimer.tsx:106-111 | while time is left in the step, a frame sets `remainingMs` to exactly that time and changes nothing else |
| TimerEngine.TickAdvances | hooks/useTimer.tsx:113-129 | with no time left and a next step, a frame moves exactly one step, sets `remainingMs` to the next duration × 1000 and the step start to `now`, and keeps the running and popup flags |
| TimerEngine.TickEnds | hooks/useTimer.tsx:130-134 | with no time left on the last step, a frame keeps the index, sets `remainingMs` to 0, stops and shows the popup |
| TimerEngine.ZeroLengthStepLastsOneFrame | hooks/useTimer.tsx:110-129 | a zero-length step becomes current for one frame and the next frame at any later reading leaves it |
| TimerEngine.PauseResumeKeepsStepTime | hooks/useTimer.tsx:151-182 | frame, pause at t0, resume at t1, frame at `now` within one step: the time left is the duration minus the time actually run, (t0 - step start) + (now - t1); the paused total grows by t1 - t0 |
| TimerEngine.ResetIdempotent | hooks/useTimer.tsx:196-206 | reset yields the initial state whatever came before, so resetting twice is the same as once |
| TimerEngine.Timer.constructor | hooks/useTimer.tsx:17-59 | mounting builds the sequence with `Build` and starts in the initial state: index 0, the first step's full duration, not running, no popup, nothing recorded |
| TimerEngine.Timer.Tick | hooks/useTimer.tsx:97-139 | the in-place frame moves the state exactly as `TickNext` |
| TimerEngine.Timer.Start | hooks/useTimer.tsx:151-175 | the in-place `start` moves the state exactly as `StartNext` |
| TimerEngine.Timer.Stop | hooks/useTimer.tsx:177-182 | the in-place `stop` moves the state exactly as `StopNext` |
| TimerEngine.Timer.Finish | hooks/useTimer.tsx:184-194 | the in-place `finish` moves the state exactly as `FinishNext` |
| TimerEngine.Timer.SetShowPopup | hooks/useTimer.tsx:250 | only the popup flag changes |
| TimerEngine.Timer.Reset | hooks/useTimer.tsx:196-206 | the in-place `reset` restores the initial state of the same sequence |
| TimerReadouts.RemainingSeconds | hooks/useTimer.tsx:211 | the result is the remaining time rounded up to whole seconds: (r - 1) × 1000 < remainingMs <= r × 1000 |
| TimerReadouts.Minutes | hooks/useTimer.tsx:223 | floor division by 60: m × 60 <= total < m × 60 + 60 |
| TimerReadouts.SecondsPart | hooks/useTimer.tsx:224 | JavaScript `%` by 60: the remainder has the sign of the count, is smaller than 60 in size, and differs from the count by a multiple of 60 |
| TimerReadouts.SplitRoundTrip | hooks/useTimer.tsx:223-227 | for a non-negative count, minutes × 60 + seconds gives it back, with seconds in [0, 60) |
| TimerReadouts.SplitNegative | hooks/useTimer.tsx:226-227 | for a negative count that is not a whole minute, the split loses one minute: minutes × 60 + seconds = count - 60 |
| TimerReadouts.RemainingSplit | hooks/useTimer.tsx:211-224 | remainingMinutes × 60 + remainingSeconds is the remaining time rounded up to seconds, with remainingSeconds < 60 |
| TimerReadouts.TotalElapsed | hooks/useTimer.tsx:213-221 | 0 before the work start is recorded; otherwise the floor of (now - work start - paused total) / 1000, not clamped at 0 |
| TimerReadouts.CurrentRound | hooks/useTimer.tsx:230 | `stepToRound[stepIndex] ?? 0`: an entry of the round map while the index is inside it, 0 past its end |
| TimerReadouts.CurrentRoundInRange | hooks/useTimer.tsx:230 | the current round is between 0 and the total number of rounds |
| TimerReadouts.TickNeverLowersRound | hooks/useTimer.tsx:230 | a frame never lowers the current round |
| TimerReadouts.Progress | hooks/useTimer.tsx:232-237 | 0 when there is no current step or it has no length; within [0, 100] whenever 0 <= remainingMs <= duration × 1000 |
| TimerReadouts.ProgressEnds | hooks/useTimer.tsx:232-237 | for a step with a length, progress is 0 exactly when the full duration is left and 100 exactly when nothing is left |
| TimerReadouts.ProgressOrder | hooks/useTimer.tsx:232-237 | in the same step, less time left means at least as much progress |
| TimerReadouts.ConsistentProgress | hooks/useTimer.tsx:232-237 | in every state the engine can reach, progress lies in [0, 100] |
| TimerReadouts.OneStepWorkout | hooks/useTimer.tsx:97-221 | 10 s of preparation then one 5 s work step, started at t: the frame at t + 10 s shows WORK and records the work start; the frame at t + 15 s stops, shows the popup and reads 5 s of work |
| TimerReadouts.PauseBeforeWorkCountsAgainstWork | hooks/useTimer.tsx:155-221 | a 60 s pause during preparation is later subtracted from work time, which reads -59 s one second into the work |
| FormatTime.NatToString | utils/format-time.ts:2 | `toString` of a natural number is a non-empty string of digits, one character exactly for numbers below 10, with no leading zero |
| FormatTime.IntToString | utils/format-time.ts:2 | `toString` of an integer: non-empty, no ':', starts with '-' exactly for negatives, and the digits after the sign read back as the magnitude |
| FormatTime.Pad2 | utils/format-time.ts:2 | `padStart(2, "0")` gives length max(\|s\|, 2), ends with the whole original string and puts only '0's in front of it |
| FormatTime.Format | utils/format-time.ts:1-2 | `formatTime`: at least 5 characters, and the first ':' splits it into the padded minutes and the padded seconds |
| FormatTime.FormatShape | utils/format-time.ts:1-2 | for minutes and seconds in 0..99 the output has 5 characters, with ':' at index 2 and digits elsewhere |
| FormatTime.PadKeepsDigits | utils/format-time.ts:2 | a one-digit number gets exactly one leading '0'; a number with two or more digits is left as it is |
| FormatTime.NegativeNotPadded | utils/format-time.ts:2 | a negative one-digit number keeps its '-' and gets no '0' |
| FormatTime.PaddedValue | utils/format-time.ts:2 | padding a number's digits leaves a digit string with the same decimal value |
| FormatTime.FormatRoundTrip | utils/format-time.ts:1-2 | for non-negative minutes and seconds, splitting the output at its ':' and reading both sides as decimal gives back both numbers |

## Left out

- Keep-awake (hooks/useTimer.tsx:81-86) is a call into `expo-keep-awake`, which is not part of this model. Line 85 also releases the lock in every case.
- The animation-frame scheduling and cancellation, and the React state/ref synchronisation (hooks/useTimer.tsx:62-76, 91-146), are not modelled. Frames are explicit `Tick(now)` calls. Nothing enforces that frames arrive only while running, and `TickNext` is defined for any state, as the code's `tick` is.
- Timestamps are integer milliseconds rather than the floating-point values of `performance.now()`. The three clock reads inside one frame (lines 98, 124, 129) are one reading `now`.
- The hook rebuilds the sequence when its `rounds`/`prepare` arguments change but keeps its state. The model fixes the sequence when the timer is created. This is why the guard for a missing current step (lines 101-104) is modelled in `TickNext` but cannot fire in the class.
- StartNext: requires the step index to be inside the sequence when it would resume. With a stale index after a rebuild, line 161 reads `duration` of `undefined` and throws a `TypeError`; that error path is not modelled.
- The default `prepare = 10` (hooks/useTimer.tsx:13) is not modelled: `Timer.constructor` and `Build` take `prepare` explicitly.
- Step durations are whole, non-negative seconds (`nat`). Fractional or negative durations, which the `number` type allows, are not modelled. `repeat` stays an unrestricted integer. A fractional `repeat` is not modelled: the loop at line 27 would run ceil(repeat) times for it.
- `totalMinutes`/`totalSeconds` (lines 226-227) use the same `Minutes`/`SecondsPart` functions as the remaining-time split. `currentStep` (line 229) is `sequence[stepIndex]` and has no member of its own.
- Negative and non-integer inputs to `toString` are modelled only as far as integers go. Fractional minutes or seconds are not modelled.
- NatToString: writes every natural in plain decimal digits. JavaScript's `toString` writes integers of 10^21 or more in exponent form (`1e+21`); the timer never produces such minutes or seconds, and that form is not modelled.
- FormatRoundTrip: proved for every natural; for minutes or seconds of 10^21 or more the source's output is in exponent form and would not read back, which the model does not capture.
- Background/suspend compensation is not in the code, so it is not modelled.
- The other hook variants and the UI are not part of this model: hooks/useWorkoutTimer.tsx (built on `react-timer-hook`), hooks/useForTime.tsx, the global store, the progress colour mapping, the components and the screens.

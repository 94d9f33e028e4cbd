/**
 * The state machine of the timer hook (hooks/useTimer.tsx:43-206).
 *
 * The clock is a parameter: every operation that reads `performance.now()`
 * takes the reading `now` in whole milliseconds, and one call of `Tick` is one
 * animation-frame callback. The hook's state and refs are updated at once,
 * so the ref mirrors of the React state are the state itself. The "unset"
 * marker 0 of `workStart` and `pauseStart` is `None`.
 *
 * The transitions are first stated as functions on a `Snapshot` of the
 * state, where their properties are proved, also along whole runs of
 * events; the class `Timer` then updates its fields in place and is proved
 * to move its state exactly as those functions say.
 */
module TimerEngine {
  import opened Optional
  import opened SequenceBuilder

  /** Everything the hook keeps between renders, besides the built sequence. */
  datatype Snapshot = Snapshot(
    stepIndex: nat,
    remainingMs: int,
    isRunning: bool,
    showPopup: bool,
    stepStart: int,
    workStart: Option<int>,
    pausedAccumulated: int,
    pauseStart: Option<int>)

  /** The control calls and animation frames that drive the hook, with their clock readings. */
  datatype Event = Tick(now: int) | Start(now: int) | Stop(now: int) | Finish(now: int) | Reset

  function DurationMs(step: Step): nat
  {
    step.duration * 1000
  }

  /** Math.min(Math.max(x, 0), hi): the clamp applied to the remaining time on resume. */
  function Clamp(x: int, hi: nat): (r: nat)
    ensures r <= hi
    ensures 0 <= x <= hi ==> r == x
    ensures x < 0 ==> r == 0
    ensures x > hi ==> r == hi
  {
    if x < 0 then 0 else if x > hi then hi else x
  }

  /** The time left in the current step that a frame at `now` computes. */
  function TimeLeft(sequence: seq<Step>, s: Snapshot, now: int): (r: int)
    requires s.stepIndex < |sequence|
    ensures s.stepStart <= now ==> r <= DurationMs(sequence[s.stepIndex])
    ensures r > 0 <==> now < s.stepStart + DurationMs(sequence[s.stepIndex])
  {
    DurationMs(sequence[s.stepIndex]) - (now - s.stepStart)
  }

  /** All time spent paused up to `now`, counting a pause still in progress. */
  function PausedSoFar(s: Snapshot, now: int): (r: int)
    ensures s.pauseStart.None? ==> r == s.pausedAccumulated
    ensures s.pauseStart.Some? && s.pauseStart.value <= now ==> r >= s.pausedAccumulated
    ensures s.pauseStart.Some? ==> r - s.pausedAccumulated == now - s.pauseStart.value
  {
    s.pausedAccumulated + (if s.pauseStart.Some? then now - s.pauseStart.value else 0)
  }

  /** A frame leaving the PREPARE step for a WORK step: the only place the work start is recorded. */
  predicate StartsWork(sequence: seq<Step>, i: nat)
  {
    i + 1 < |sequence| && sequence[i].kind == Prepare && sequence[i + 1].kind == Work
  }

  /** The state on mount and after `reset`: first step, its full duration, nothing recorded. */
  function Initial(sequence: seq<Step>): (t: Snapshot)
    requires |sequence| > 0
    ensures t.stepIndex == 0 && t.remainingMs == DurationMs(sequence[0])
    ensures !t.isRunning && !t.showPopup
    ensures t.workStart.None? && t.pauseStart.None? && t.pausedAccumulated == 0
  {
    Snapshot(0, DurationMs(sequence[0]), false, false, 0, None, 0, None)
  }

  /**
   * One animation frame (`tick`): count down inside the current step, or move
   * to the next step, or end the workout when there is no next step. A step
   * index past the end stops the timer.
   */
  function TickNext(sequence: seq<Step>, s: Snapshot, now: int): (t: Snapshot)
    ensures s.stepIndex < |sequence| ==> t.stepIndex < |sequence|
    ensures t.stepIndex == s.stepIndex || t.stepIndex == s.stepIndex + 1
    ensures t.pausedAccumulated == s.pausedAccumulated && t.pauseStart == s.pauseStart
    ensures s.workStart.Some? ==> t.workStart == s.workStart
    ensures t.workStart != s.workStart <==>
              s.workStart.None? && t.stepIndex != s.stepIndex && StartsWork(sequence, s.stepIndex)
    ensures t.workStart != s.workStart ==> t.workStart == Some(now)
    ensures t.isRunning ==> s.isRunning
  {
    if s.stepIndex >= |sequence| then
      s.(isRunning := false)
    else
      var current := sequence[s.stepIndex];
      var expectedRemaining := DurationMs(current) - (now - s.stepStart);
      if expectedRemaining > 0 then
        s.(remainingMs := expectedRemaining)
      else if s.stepIndex + 1 < |sequence| then
        var next := sequence[s.stepIndex + 1];
        var workStart :=
          if current.kind == Prepare && next.kind == Work && s.workStart.None? then Some(now) else s.workStart;
        s.(stepIndex := s.stepIndex + 1, remainingMs := DurationMs(next), stepStart := now, workStart := workStart)
      else
        s.(remainingMs := 0, isRunning := false, showPopup := true)
  }

  /**
   * `start`: nothing when already running or when the sequence is empty;
   * otherwise close a pending pause and move the step start so that the
   * time already spent in the step before the pause is kept.
   */
  function StartNext(sequence: seq<Step>, s: Snapshot, now: int): (t: Snapshot)
    requires s.isRunning || sequence == [] || s.stepIndex < |sequence|
    ensures s.isRunning || sequence == [] ==> t == s
    ensures !s.isRunning && sequence != [] ==>
              && t == s.(isRunning := true, pauseStart := None, pausedAccumulated := t.pausedAccumulated,
                         stepStart := t.stepStart)
              && t.pausedAccumulated == PausedSoFar(s, now)
              && TimeLeft(sequence, t, now) == Clamp(s.remainingMs, DurationMs(sequence[s.stepIndex]))
  {
    if !s.isRunning && |sequence| > 0 then
      var paused :=
        if s.pauseStart.Some? then s.pausedAccumulated + (now - s.pauseStart.value) else s.pausedAccumulated;
      var durationMs := DurationMs(sequence[s.stepIndex]);
      var alreadyElapsed := durationMs - Clamp(s.remainingMs, durationMs);
      s.(pausedAccumulated := paused, pauseStart := None, stepStart := now - alreadyElapsed, isRunning := true)
    else
      s
  }

  /** `stop` (pause): only when running, record when the pause began; the step and its time are kept. */
  function StopNext(s: Snapshot, now: int): (t: Snapshot)
    ensures !t.isRunning
    ensures s.isRunning ==> t.pauseStart == Some(now)
    ensures !s.isRunning ==> t == s
    ensures t == s.(isRunning := false, pauseStart := t.pauseStart)
  {
    if s.isRunning then s.(pauseStart := Some(now), isRunning := false) else s
  }

  /** `finish`: fold a pending pause into the paused total, stop and raise the result popup. */
  function FinishNext(s: Snapshot, now: int): (t: Snapshot)
    ensures !t.isRunning && t.showPopup && t.pauseStart.None?
    ensures t.pausedAccumulated == PausedSoFar(s, now)
    ensures t == s.(isRunning := false, showPopup := true, pauseStart := None, pausedAccumulated := t.pausedAccumulated)
  {
    var paused :=
      if s.pauseStart.Some? then s.pausedAccumulated + (now - s.pauseStart.value) else s.pausedAccumulated;
    s.(pausedAccumulated := paused, pauseStart := None, isRunning := false, showPopup := true)
  }

  /** The effect of one event on the state. */
  function Apply(sequence: seq<Step>, s: Snapshot, e: Event): (t: Snapshot)
    requires s.stepIndex < |sequence|
    ensures t.stepIndex < |sequence|
  {
    match e
    case Tick(now) => TickNext(sequence, s, now)
    case Start(now) => StartNext(sequence, s, now)
    case Stop(now) => StopNext(s, now)
    case Finish(now) => FinishNext(s, now)
    case Reset => Initial(sequence)
  }

  /** The state after a run of events; the step index never leaves the sequence. */
  function Run(sequence: seq<Step>, s: Snapshot, events: seq<Event>): (t: Snapshot)
    requires s.stepIndex < |sequence|
    ensures t.stepIndex < |sequence|
    decreases |events|
  {
    if events == [] then s else Run(sequence, Apply(sequence, s, events[0]), events[1..])
  }

  /** The clock reading of an event; `reset` reads no clock and keeps the last one. */
  function When(e: Event, clock: int): int
  {
    if e.Reset? then clock else e.now
  }

  /** The clock readings of a run never go backwards (performance.now() is monotonic). */
  ghost predicate Monotone(events: seq<Event>, clock: int)
    decreases |events|
  {
    events == [] || (clock <= When(events[0], clock) && Monotone(events[1..], When(events[0], clock)))
  }

  /** The clock reading after a run of events: the last reading taken, or `clock` if none was. */
  function LastClock(events: seq<Event>, clock: int): (last: int)
    ensures Monotone(events, clock) ==> clock <= last
    decreases |events|
  {
    if events == [] then clock else LastClock(events[1..], When(events[0], clock))
  }

  /**
   * What holds of every state the hook reaches when the clock has last read
   * `clock` (always positive): the index is in range, the remaining time lies
   * within the current step, every recorded instant is in the past and
   * positive (so `None` never clashes with a recorded reading of 0), the
   * paused total is not negative, and no pause is pending while running.
   */
  ghost predicate Consistent(sequence: seq<Step>, s: Snapshot, clock: int)
  {
    && 0 < clock
    && s.stepIndex < |sequence|
    && 0 <= s.remainingMs <= DurationMs(sequence[s.stepIndex])
    && s.stepStart <= clock
    && (s.workStart.Some? ==> 0 < s.workStart.value <= clock)
    && (s.pauseStart.Some? ==> 0 < s.pauseStart.value <= clock)
    && 0 <= s.pausedAccumulated
    && (s.isRunning ==> s.pauseStart.None?)
  }

  lemma InitialConsistent(sequence: seq<Step>, clock: int)
    requires |sequence| > 0 && 0 < clock
    ensures Consistent(sequence, Initial(sequence), clock)
  {
  }

  /** Each event keeps the state consistent when the clock does not go backwards. */
  lemma ApplyConsistent(sequence: seq<Step>, s: Snapshot, clock: int, e: Event)
    requires Consistent(sequence, s, clock) && clock <= When(e, clock)
    ensures Consistent(sequence, Apply(sequence, s, e), When(e, clock))
  {
    match e
    case Tick(now) =>
    case Start(now) =>
      var d := DurationMs(sequence[s.stepIndex]);
      assert Clamp(s.remainingMs, d) == s.remainingMs;
    case Stop(now) =>
    case Finish(now) =>
    case Reset =>
  }

  /** Every state reached by a run with a monotonic clock is consistent at the run's last clock reading. */
  lemma {:induction false} RunConsistent(sequence: seq<Step>, s: Snapshot, clock: int, events: seq<Event>)
    requires Consistent(sequence, s, clock) && Monotone(events, clock)
    ensures Consistent(sequence, Run(sequence, s, events), LastClock(events, clock))
    decreases |events|
  {
    if events != [] {
      var c := When(events[0], clock);
      ApplyConsistent(sequence, s, clock, events[0]);
      RunConsistent(sequence, Apply(sequence, s, events[0]), c, events[1..]);
    }
  }

  /** Once the work start is recorded, no run without `reset` changes it. */
  lemma {:induction false} WorkStartSetOnce(sequence: seq<Step>, s: Snapshot, events: seq<Event>)
    requires s.stepIndex < |sequence| && s.workStart.Some?
    requires forall i :: 0 <= i < |events| ==> !events[i].Reset?
    ensures Run(sequence, s, events).workStart == s.workStart
    decreases |events|
  {
    if events != [] {
      assert !events[0].Reset?;
      WorkStartSetOnce(sequence, Apply(sequence, s, events[0]), events[1..]);
    }
  }

  /** The step index never moves backwards in a run without `reset`, and moves at most one step per frame. */
  lemma {:induction false} IndexNeverBack(sequence: seq<Step>, s: Snapshot, events: seq<Event>)
    requires s.stepIndex < |sequence|
    requires forall i :: 0 <= i < |events| ==> !events[i].Reset?
    ensures s.stepIndex <= Run(sequence, s, events).stepIndex <= s.stepIndex + |events|
    decreases |events|
  {
    if events != [] {
      assert !events[0].Reset?;
      IndexNeverBack(sequence, Apply(sequence, s, events[0]), events[1..]);
    }
  }

  /** A frame with time left in the step only rewrites the remaining time, to exactly that time left. */
  lemma TickWithinStep(sequence: seq<Step>, s: Snapshot, now: int)
    requires s.stepIndex < |sequence| && TimeLeft(sequence, s, now) > 0
    ensures TickNext(sequence, s, now) == s.(remainingMs := TimeLeft(sequence, s, now))
  {
  }

  /** A frame with no time left moves exactly one step on and restarts the step clock at `now`. */
  lemma TickAdvances(sequence: seq<Step>, s: Snapshot, now: int)
    requires s.stepIndex + 1 < |sequence| && TimeLeft(sequence, s, now) <= 0
    ensures var t := TickNext(sequence, s, now);
      && t.stepIndex == s.stepIndex + 1
      && t.remainingMs == DurationMs(sequence[t.stepIndex])
      && t.stepStart == now
      && t.isRunning == s.isRunning && t.showPopup == s.showPopup
  {
  }

  /** A frame with no time left in the last step ends the workout and keeps the index. */
  lemma TickEnds(sequence: seq<Step>, s: Snapshot, now: int)
    requires s.stepIndex + 1 == |sequence| && TimeLeft(sequence, s, now) <= 0
    ensures TickNext(sequence, s, now) == s.(remainingMs := 0, isRunning := false, showPopup := true)
  {
  }

  /**
   * As written, a frame advances at most one step: a zero-length step
   * becomes current for one frame, and the next frame at any later reading
   * leaves it.
   */
  lemma ZeroLengthStepLastsOneFrame(sequence: seq<Step>, s: Snapshot, now: int, later: int)
    requires s.stepIndex + 2 < |sequence| && sequence[s.stepIndex + 1].duration == 0
    requires TimeLeft(sequence, s, now) <= 0 && now <= later
    ensures TickNext(sequence, s, now).stepIndex == s.stepIndex + 1
    ensures TickNext(sequence, TickNext(sequence, s, now), later).stepIndex == s.stepIndex + 2
  {
  }

  /**
   * Pause and resume inside one step: a frame at `t0`, a pause at `t0`, a
   * resume at `t1` and a frame at `now` leave the step with its duration
   * less the time it actually ran, and add the pause to the paused total.
   */
  lemma PauseResumeKeepsStepTime(sequence: seq<Step>, s: Snapshot, clock: int, t0: int, t1: int, now: int)
    requires Consistent(sequence, s, clock) && s.isRunning
    requires clock <= t0 <= t1 <= now
    requires TimeLeft(sequence, s, t0) - (now - t1) > 0
    ensures var t := Run(sequence, s, [Tick(t0), Stop(t0), Start(t1), Tick(now)]);
      && t.stepIndex == s.stepIndex && t.isRunning
      && t.remainingMs == DurationMs(sequence[s.stepIndex]) - ((t0 - s.stepStart) + (now - t1))
      && t.pausedAccumulated == s.pausedAccumulated + (t1 - t0)
  {
    var a := TickNext(sequence, s, t0);
    var b := StopNext(a, t0);
    var c := StartNext(sequence, b, t1);
    assert Clamp(b.remainingMs, DurationMs(sequence[s.stepIndex])) == b.remainingMs;
    var es := [Tick(t0), Stop(t0), Start(t1), Tick(now)];
    assert es[1..] == [Stop(t0), Start(t1), Tick(now)];
    assert es[1..][1..] == [Start(t1), Tick(now)];
    assert es[1..][1..][1..] == [Tick(now)];
    assert Run(sequence, s, es) == Run(sequence, a, es[1..]);
    assert Run(sequence, a, es[1..]) == Run(sequence, b, es[1..][1..]);
    assert Run(sequence, b, es[1..][1..]) == Run(sequence, c, es[1..][1..][1..]);
    assert Run(sequence, c, [Tick(now)]) == TickNext(sequence, c, now);
  }

  /** `reset` forgets everything: after it the state depends on the sequence alone, so a second one changes nothing. */
  lemma ResetIdempotent(sequence: seq<Step>, s: Snapshot)
    requires s.stepIndex < |sequence|
    ensures Apply(sequence, s, Reset) == Initial(sequence)
    ensures Apply(sequence, Apply(sequence, s, Reset), Reset) == Apply(sequence, s, Reset)
  {
  }

  /**
   * The hook's engine, holding the built sequence and the mutable state.
   * Its methods take the clock reading and update the fields in place.
   */
  class Timer {
    const sequence: seq<Step>
    const stepToRound: seq<int>
    const totalRounds: int
    ghost const rounds: seq<Round>
    ghost const prepare: nat

    var stepIndex: nat
    var remainingMs: int
    var isRunning: bool
    var showPopup: bool
    var stepStart: int
    var workStart: Option<int>
    var pausedAccumulated: int
    var pauseStart: Option<int>

    ghost predicate Valid()
      reads this
    {
      && sequence == Sequence(rounds, prepare)
      && stepToRound == RoundMap(rounds)
      && totalRounds == TotalRepeats(rounds)
      && stepIndex < |sequence|
    }

    ghost function State(): Snapshot
      reads this
    {
      Snapshot(stepIndex, remainingMs, isRunning, showPopup, stepStart, workStart, pausedAccumulated, pauseStart)
    }

    /** Mounting the hook: build the sequence, then start from the first step with nothing recorded. */
    constructor (rounds: seq<Round>, prepare: nat)
      ensures Valid() && this.rounds == rounds && this.prepare == prepare
      ensures State() == Initial(sequence)
    {
      var built, roundMap, total := Build(rounds, prepare);
      sequence, stepToRound, totalRounds := built, roundMap, total;
      this.rounds, this.prepare := rounds, prepare;
      stepIndex := 0;
      remainingMs := built[0].duration * 1000;
      isRunning, showPopup := false, false;
      stepStart, workStart, pausedAccumulated, pauseStart := 0, None, 0, None;
    }

    method Tick(now: int)
      requires Valid()
      modifies this
      ensures Valid()
      ensures State() == TickNext(sequence, old(State()), now)
    {
      var currentStep := sequence[stepIndex];
      var durationMs := currentStep.duration * 1000;
      var elapsedInStep := now - stepStart;
      var expectedRemaining := durationMs - elapsedInStep;
      if expectedRemaining > 0 {
        remainingMs := expectedRemaining;
      } else {
        var nextIndex := stepIndex + 1;
        if nextIndex < |sequence| {
          var nextStep := sequence[nextIndex];
          if currentStep.kind == Prepare && nextStep.kind == Work && workStart.None? {
            workStart := Some(now);
          }
          stepIndex := nextIndex;
          remainingMs := nextStep.duration * 1000;
          stepStart := now;
        } else {
          remainingMs := 0;
          isRunning := false;
          showPopup := true;
        }
      }
    }

    method Start(now: int)
      requires Valid()
      modifies this
      ensures Valid()
      ensures State() == StartNext(sequence, old(State()), now)
    {
      if !isRunning && |sequence| > 0 {
        if pauseStart.Some? {
          pausedAccumulated := pausedAccumulated + (now - pauseStart.value);
          pauseStart := None;
        }
        var currentStep := sequence[stepIndex];
        var durationMs := currentStep.duration * 1000;
        var safeRemaining := if remainingMs < 0 then 0 else if remainingMs > durationMs then durationMs else remainingMs;
        var alreadyElapsed := durationMs - safeRemaining;
        stepStart := now - alreadyElapsed;
        isRunning := true;
      }
    }

    method Stop(now: int)
      requires Valid()
      modifies this
      ensures Valid()
      ensures State() == StopNext(old(State()), now)
    {
      if isRunning {
        pauseStart := Some(now);
        isRunning := false;
      }
    }

    method Finish(now: int)
      requires Valid()
      modifies this
      ensures Valid()
      ensures State() == FinishNext(old(State()), now)
    {
      if pauseStart.Some? {
        pausedAccumulated := pausedAccumulated + (now - pauseStart.value);
        pauseStart := None;
      }
      isRunning := false;
      showPopup := true;
    }

    /** The `setShowPopup` setter the hook hands out: only the popup flag changes. */
    method SetShowPopup(value: bool)
      requires Valid()
      modifies this
      ensures Valid()
      ensures State() == old(State()).(showPopup := value)
    {
      showPopup := value;
    }

    method Reset()
      requires Valid()
      modifies this
      ensures Valid()
      ensures State() == Initial(sequence)
    {
      isRunning := false;
      stepIndex := 0;
      remainingMs := sequence[0].duration * 1000;
      showPopup := false;
      pausedAccumulated := 0;
      pauseStart := None;
      stepStart := 0;
      workStart := None;
    }
  }
}

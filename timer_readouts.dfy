/**
 * The values the timer hook derives from its state on every render
 * (hooks/useTimer.tsx:211-237): remaining seconds and their minutes/seconds
 * split, elapsed work time, current round and step progress. The clock
 * reading used for the elapsed time is the parameter `now`.
 */
module TimerReadouts {
  import opened Optional
  import opened SequenceBuilder
  import opened TimerEngine

  /** Math.ceil(remainingMs / 1000): the seconds left, rounded up. */
  function RemainingSeconds(remainingMs: int): (r: int)
    ensures (r - 1) * 1000 < remainingMs <= r * 1000
  {
    (remainingMs + 999) / 1000
  }

  /** Math.floor(total / 60). */
  function Minutes(total: int): (m: int)
    ensures m * 60 <= total < m * 60 + 60
  {
    total / 60
  }

  /** JavaScript's `total % 60`: the remainder takes the sign of `total`. */
  function SecondsPart(total: int): (r: int)
    ensures total >= 0 ==> 0 <= r < 60
    ensures total < 0 ==> -60 < r <= 0
    ensures (total - r) % 60 == 0
  {
    if total >= 0 then total % 60 else -((-total) % 60)
  }

  /** For a non-negative count the split gives it back, with fewer than 60 seconds. */
  lemma SplitRoundTrip(total: int)
    requires total >= 0
    ensures Minutes(total) * 60 + SecondsPart(total) == total
    ensures 0 <= SecondsPart(total) < 60
  {
  }

  /** For a negative count that is not a whole minute, floor and JavaScript's `%` together lose one minute. */
  lemma SplitNegative(total: int)
    requires total < 0 && total % 60 != 0
    ensures Minutes(total) * 60 + SecondsPart(total) == total - 60
  {
    var r := SecondsPart(total);
    assert -60 < r < 0;
  }

  /** The remaining-time read-out: minutes * 60 + seconds is the remaining time rounded up to whole seconds. */
  lemma RemainingSplit(remainingMs: int)
    requires remainingMs >= 0
    ensures var r := RemainingSeconds(remainingMs);
      && Minutes(r) * 60 + SecondsPart(r) == r
      && 0 <= SecondsPart(r) < 60
      && (r - 1) * 1000 < remainingMs <= r * 1000
  {
    var r := RemainingSeconds(remainingMs);
    assert r >= 0;
    SplitRoundTrip(r);
  }

  /**
   * `totalElapsed`: 0 before the work start is recorded, else the whole
   * seconds from the work start to `now` less the paused total, rounded
   * down and not clamped at 0.
   */
  function TotalElapsed(s: Snapshot, now: int): (r: int)
    ensures s.workStart.None? ==> r == 0
    ensures s.workStart.Some? ==> r * 1000 <= now - s.workStart.value - s.pausedAccumulated < r * 1000 + 1000
  {
    match s.workStart
    case None => 0
    case Some(w) => (now - w - s.pausedAccumulated) / 1000
  }

  /** `stepToRound[stepIndex] ?? 0`: the map's entry for the current step, or 0 past its end. */
  function CurrentRound(stepToRound: seq<int>, s: Snapshot): (r: int)
    ensures s.stepIndex < |stepToRound| ==> r in stepToRound
    ensures s.stepIndex >= |stepToRound| ==> r == 0
  {
    if s.stepIndex < |stepToRound| then stepToRound[s.stepIndex] else 0
  }

  /** The round shown is always between 0 and the total number of rounds. */
  lemma CurrentRoundInRange(rounds: seq<Round>, prepare: nat, s: Snapshot)
    requires s.stepIndex < |Sequence(rounds, prepare)|
    ensures 0 <= CurrentRound(RoundMap(rounds), s) <= TotalRepeats(rounds)
  {
    SequenceShape(rounds, prepare);
  }

  /** A frame never makes the round shown go down. */
  lemma TickNeverLowersRound(rounds: seq<Round>, prepare: nat, s: Snapshot, now: int)
    requires s.stepIndex < |Sequence(rounds, prepare)|
    ensures CurrentRound(RoundMap(rounds), TickNext(Sequence(rounds, prepare), s, now))
            >= CurrentRound(RoundMap(rounds), s)
  {
    SequenceShape(rounds, prepare);
  }

  lemma PercentBounds(x: real, d: real)
    requires 0.0 < d
    ensures 0.0 <= x <= d ==> 0.0 <= x / d * 100.0 <= 100.0
  {
    if 0.0 <= x <= d {
      assert x / d <= d / d == 1.0;
    }
  }

  /** `progress`: the percentage of the current step's duration already used, 0 for a step of no length. */
  function Progress(sequence: seq<Step>, s: Snapshot): (p: real)
    ensures s.stepIndex >= |sequence| || sequence[s.stepIndex].duration == 0 ==> p == 0.0
    ensures s.stepIndex < |sequence| && 0 <= s.remainingMs <= DurationMs(sequence[s.stepIndex]) ==> 0.0 <= p <= 100.0
  {
    if s.stepIndex < |sequence| && sequence[s.stepIndex].duration > 0 then
      var d := DurationMs(sequence[s.stepIndex]) as real;
      var x := d - s.remainingMs as real;
      PercentBounds(x, d);
      x / d * 100.0
    else
      0.0
  }

  /** Progress is 0 exactly at the start of a step and 100 exactly when no time is left. */
  lemma ProgressEnds(sequence: seq<Step>, s: Snapshot)
    requires s.stepIndex < |sequence| && sequence[s.stepIndex].duration > 0
    ensures Progress(sequence, s) == 0.0 <==> s.remainingMs == DurationMs(sequence[s.stepIndex])
    ensures Progress(sequence, s) == 100.0 <==> s.remainingMs == 0
  {
    var d := DurationMs(sequence[s.stepIndex]) as real;
    var x := d - s.remainingMs as real;
    assert Progress(sequence, s) == x / d * 100.0;
    if x / d * 100.0 == 100.0 {
      assert x / d == 1.0;
      assert x == d;
    }
  }

  /** Less time left in the same step means more progress. */
  lemma ProgressOrder(sequence: seq<Step>, s: Snapshot, u: Snapshot)
    requires s.stepIndex == u.stepIndex < |sequence| && sequence[s.stepIndex].duration > 0
    requires u.remainingMs <= s.remainingMs
    ensures Progress(sequence, u) >= Progress(sequence, s)
  {
    var d := DurationMs(sequence[s.stepIndex]) as real;
    var x, y := d - s.remainingMs as real, d - u.remainingMs as real;
    assert x <= y;
    assert x / d <= y / d;
  }

  /** In every consistent state the progress lies in [0, 100]. */
  lemma ConsistentProgress(sequence: seq<Step>, s: Snapshot, clock: int)
    requires Consistent(sequence, s, clock)
    ensures 0.0 <= Progress(sequence, s) <= 100.0
  {
  }

  /**
   * A workout of one 5 s work step after 10 s of preparation, started at
   * `t`: the frame at t + 10 s shows the work step and records the work
   * start, and the frame at t + 15 s ends the workout with 5 s of work.
   */
  lemma OneStepWorkout(t: int)
    requires t > 0
    ensures var sequence := Sequence([Round(1, [Step(Work, 5)])], 10);
      var s1 := Run(sequence, Initial(sequence), [Start(t), Tick(t), Tick(t + 10000)]);
      var s2 := TickNext(sequence, s1, t + 15000);
      && sequence[s1.stepIndex].kind == Work && s1.workStart == Some(t + 10000) && s1.isRunning
      && !s2.isRunning && s2.showPopup && s2.remainingMs == 0
      && TotalElapsed(s2, t + 15000) == 5
  {
    var rounds := [Round(1, [Step(Work, 5)])];
    assert rounds[..0] == [];
    var sequence := Sequence(rounds, 10);
    assert sequence == [Step(Prepare, 10), Step(Work, 5)];
    var es := [Start(t), Tick(t), Tick(t + 10000)];
    var a0 := Initial(sequence);
    var a1 := StartNext(sequence, a0, t);
    assert a1 == a0.(isRunning := true, stepStart := t);
    var a2 := TickNext(sequence, a1, t);
    assert a2 == a1.(remainingMs := 10000);
    var a3 := TickNext(sequence, a2, t + 10000);
    assert a3 == a2.(stepIndex := 1, remainingMs := 5000, stepStart := t + 10000, workStart := Some(t + 10000));
    assert es[1..] == [Tick(t), Tick(t + 10000)] && es[1..][1..] == [Tick(t + 10000)];
    assert Run(sequence, a0, es) == Run(sequence, a1, es[1..]) == Run(sequence, a2, es[1..][1..]) == a3;
  }

  /**
   * As written, a pause during the preparation counts against the work
   * time: pausing 60 s before the work starts makes the elapsed work time
   * read -59 one second into the work.
   */
  lemma PauseBeforeWorkCountsAgainstWork()
    ensures var sequence := Sequence([Round(1, [Step(Work, 5)])], 10);
      var s := Run(sequence, Initial(sequence), [Start(1000), Tick(2000), Stop(2000), Start(62000), Tick(71000)]);
      s.stepIndex == 1 && s.workStart == Some(71000) && TotalElapsed(s, 72000) == -59
  {
    var rounds := [Round(1, [Step(Work, 5)])];
    assert rounds[..0] == [];
    var sequence := Sequence(rounds, 10);
    assert sequence == [Step(Prepare, 10), Step(Work, 5)];
    var es := [Start(1000), Tick(2000), Stop(2000), Start(62000), Tick(71000)];
    var a0 := Initial(sequence);
    var a1 := StartNext(sequence, a0, 1000);
    assert a1 == a0.(isRunning := true, stepStart := 1000);
    var a2 := TickNext(sequence, a1, 2000);
    assert a2 == a1.(remainingMs := 9000);
    var a3 := StopNext(a2, 2000);
    assert a3 == a2.(isRunning := false, pauseStart := Some(2000));
    var a4 := StartNext(sequence, a3, 62000);
    assert a4 == a3.(isRunning := true, pauseStart := None, pausedAccumulated := 60000, stepStart := 61000);
    var a5 := TickNext(sequence, a4, 71000);
    assert a5 == a4.(stepIndex := 1, remainingMs := 5000, stepStart := 71000, workStart := Some(71000));
    assert es[1..] == [Tick(2000), Stop(2000), Start(62000), Tick(71000)];
    assert es[2..] == [Stop(2000), Start(62000), Tick(71000)];
    assert es[3..] == [Start(62000), Tick(71000)];
    assert es[4..] == [Tick(71000)];
    assert es[1..][1..] == es[2..] && es[2..][1..] == es[3..] && es[3..][1..] == es[4..];
    assert Run(sequence, a0, es) == Run(sequence, a1, es[1..]) == Run(sequence, a2, es[2..]);
    assert Run(sequence, a2, es[2..]) == Run(sequence, a3, es[3..]) == Run(sequence, a4, es[4..]) == a5;
  }
}

/**
 * The workout definition and the sequence builder of the timer hook
 * (hooks/useTimer.tsx:4-41): a list of rounds, each repeated `repeat` times,
 * is flattened into one step list that starts with a single PREPARE step,
 * together with a parallel list giving the round number of every step.
 */
module SequenceBuilder {

  datatype StepType = Prepare | Work | Rest

  /** One timed phase; `duration` is in whole seconds. */
  datatype Step = Step(kind: StepType, duration: nat)

  /** One round of the definition: `steps` played `repeat` times in a row. */
  datatype Round = Round(repeat: int, steps: seq<Step>)

  /** How often the loop `for (rep = 0; rep < r.repeat; rep++)` runs: max(0, repeat). */
  function Repeats(r: Round): nat
  {
    if r.repeat > 0 then r.repeat else 0
  }

  /** `n` copies of `steps`, one after the other. */
  function Copies(steps: seq<Step>, n: nat): seq<Step>
  {
    if n == 0 then [] else Copies(steps, n - 1) + steps
  }

  /** Round numbers for `n` copies of a `len`-step round: the copy numbered `p` (from 0) is tagged `first + p`. */
  function Tags(len: nat, n: nat, first: int): seq<int>
  {
    if n == 0 then [] else Tags(len, n - 1, first) + seq(len, _ => first + n - 1)
  }

  /** The number of repeats over all rounds: the value `totalRounds` must take. */
  function TotalRepeats(rounds: seq<Round>): nat
  {
    if rounds == [] then 0
    else TotalRepeats(rounds[..|rounds| - 1]) + Repeats(rounds[|rounds| - 1])
  }

  /** The number of steps the rounds expand to: the sum of max(0, repeat) * |steps|. */
  function StepCount(rounds: seq<Round>): nat
  {
    if rounds == [] then 0
    else StepCount(rounds[..|rounds| - 1]) + Repeats(rounds[|rounds| - 1]) * |rounds[|rounds| - 1].steps|
  }

  /** The steps the rounds expand to, in order (everything after the PREPARE step). */
  function Body(rounds: seq<Round>): seq<Step>
  {
    if rounds == [] then []
    else
      var last := rounds[|rounds| - 1];
      Body(rounds[..|rounds| - 1]) + Copies(last.steps, Repeats(last))
  }

  /** The round numbers of the steps of `Body(rounds)`; numbering starts at 1 and goes up once per repeat. */
  function BodyRounds(rounds: seq<Round>): seq<int>
  {
    if rounds == [] then []
    else
      var init, last := rounds[..|rounds| - 1], rounds[|rounds| - 1];
      BodyRounds(init) + Tags(|last.steps|, Repeats(last), TotalRepeats(init) + 1)
  }

  /** The built sequence: one PREPARE step of `prepare` seconds, then the rounds' steps. */
  function Sequence(rounds: seq<Round>, prepare: nat): seq<Step>
  {
    [Step(Prepare, prepare)] + Body(rounds)
  }

  /** The built step-to-round map: round 0 for the PREPARE step, then the rounds' numbers. */
  function RoundMap(rounds: seq<Round>): seq<int>
  {
    [0] + BodyRounds(rounds)
  }

  ghost predicate NonDecreasing(s: seq<int>)
  {
    forall i, j :: 0 <= i <= j < |s| ==> s[i] <= s[j]
  }

  /** How the specification functions grow by one round. */
  lemma UnfoldPrefix(rounds: seq<Round>, i: nat, prepare: nat)
    requires i < |rounds|
    ensures var r := rounds[i];
      && Sequence(rounds[..i + 1], prepare) == Sequence(rounds[..i], prepare) + Copies(r.steps, Repeats(r))
      && RoundMap(rounds[..i + 1]) == RoundMap(rounds[..i]) + Tags(|r.steps|, Repeats(r), TotalRepeats(rounds[..i]) + 1)
      && TotalRepeats(rounds[..i + 1]) == TotalRepeats(rounds[..i]) + Repeats(r)
  {
    assert rounds[..i + 1][..i] == rounds[..i];
  }

  /**
   * The `useMemo` body of the hook: nested loops over rounds, repeats and
   * steps that push onto the step list and the round map and count rounds.
   */
  method Build(rounds: seq<Round>, prepare: nat) returns (sequence: seq<Step>, stepToRound: seq<int>, totalRounds: int)
    ensures sequence == Sequence(rounds, prepare)
    ensures stepToRound == RoundMap(rounds)
    ensures totalRounds == TotalRepeats(rounds)
  {
    sequence := [Step(Prepare, prepare)];
    stepToRound := [0];
    var roundNum := 1;
    for i := 0 to |rounds|
      invariant sequence == Sequence(rounds[..i], prepare)
      invariant stepToRound == RoundMap(rounds[..i])
      invariant roundNum == TotalRepeats(rounds[..i]) + 1
    {
      var r := rounds[i];
      ghost var first, seq0, map0 := roundNum, sequence, stepToRound;
      var rep := 0;
      while rep < r.repeat
        invariant 0 <= rep <= Repeats(r)
        invariant sequence == seq0 + Copies(r.steps, rep)
        invariant stepToRound == map0 + Tags(|r.steps|, rep, first)
        invariant roundNum == first + rep
      {
        ghost var before := stepToRound;
        for j := 0 to |r.steps|
          invariant sequence == seq0 + Copies(r.steps, rep) + r.steps[..j]
          invariant stepToRound == before + seq(j, _ => roundNum)
        {
          sequence := sequence + [r.steps[j]];
          stepToRound := stepToRound + [roundNum];
          assert seq(j, _ => roundNum) + [roundNum] == seq(j + 1, _ => roundNum);
        }
        assert r.steps[..|r.steps|] == r.steps;
        assert seq(|r.steps|, _ => roundNum) == seq(|r.steps|, _ => first + (rep + 1) - 1);
        roundNum := roundNum + 1;
        rep := rep + 1;
      }
      UnfoldPrefix(rounds, i, prepare);
    }
    assert rounds[..|rounds|] == rounds;
    totalRounds := if roundNum - 1 > 0 then roundNum - 1 else 0;
  }

  lemma {:induction false} CopiesLength(steps: seq<Step>, n: nat)
    ensures |Copies(steps, n)| == n * |steps|
  {
    if n > 0 {
      CopiesLength(steps, n - 1);
    }
  }

  lemma {:induction false} TagsLength(len: nat, n: nat, first: int)
    ensures |Tags(len, n, first)| == n * len
  {
    if n > 0 {
      TagsLength(len, n - 1, first);
    }
  }

  lemma {:induction false} MulMonotone(a: nat, b: nat, c: nat)
    requires a <= b
    ensures a * c <= b * c
  {
    if c > 0 {
      MulMonotone(a, b, c - 1);
      assert a * c == a * (c - 1) + a && b * c == b * (c - 1) + b;
    }
  }

  /** Entry `i` of repeat `p` of the expansion is step `i` of the round: the steps repeat in order. */
  lemma {:induction false} CopiesAt(steps: seq<Step>, n: nat, p: nat, i: nat)
    requires p < n && i < |steps|
    ensures p * |steps| + i < |Copies(steps, n)| && Copies(steps, n)[p * |steps| + i] == steps[i]
  {
    CopiesLength(steps, n - 1);
    assert (n - 1) * |steps| + |steps| == n * |steps|;
    if p < n - 1 {
      CopiesAt(steps, n - 1, p, i);
    } else {
      assert p * |steps| == (n - 1) * |steps|;
    }
  }

  /** Every step of repeat `p` of a round is tagged `first + p`: the number goes up once per repeat, not per step. */
  lemma {:induction false} TagsAt(len: nat, n: nat, first: int, p: nat, i: nat)
    requires p < n && i < len
    ensures p * len + i < |Tags(len, n, first)| && Tags(len, n, first)[p * len + i] == first + p
  {
    TagsLength(len, n - 1, first);
    assert (n - 1) * len + len == n * len;
    if p < n - 1 {
      MulMonotone(p + 1, n - 1, len);
      assert (p + 1) * len == p * len + len;
      TagsAt(len, n - 1, first, p, i);
    } else {
      assert p * len == (n - 1) * len;
    }
  }

  lemma ConcatNonDecreasing(a: seq<int>, b: seq<int>)
    requires NonDecreasing(a) && NonDecreasing(b)
    requires forall x, y :: x in a && y in b ==> x <= y
    ensures NonDecreasing(a + b)
  {
    var s := a + b;
    forall i, j | 0 <= i <= j < |s|
      ensures s[i] <= s[j]
    {
      if j < |a| {
        assert s[i] == a[i] && s[j] == a[j];
      } else if i < |a| {
        assert s[i] in a && s[j] in b;
      } else {
        assert s[i] == b[i - |a|] && s[j] == b[j - |a|];
      }
    }
  }

  lemma {:induction false} TagsRange(len: nat, n: nat, first: int)
    ensures forall x :: x in Tags(len, n, first) ==> first <= x < first + n
    ensures NonDecreasing(Tags(len, n, first))
  {
    if n > 0 {
      TagsRange(len, n - 1, first);
      ConcatNonDecreasing(Tags(len, n - 1, first), seq(len, _ => first + n - 1));
    }
  }

  lemma {:induction false} BodyLength(rounds: seq<Round>)
    ensures |Body(rounds)| == |BodyRounds(rounds)| == StepCount(rounds)
  {
    if rounds != [] {
      var init, last := rounds[..|rounds| - 1], rounds[|rounds| - 1];
      BodyLength(init);
      CopiesLength(last.steps, Repeats(last));
      TagsLength(|last.steps|, Repeats(last), TotalRepeats(init) + 1);
    }
  }

  /** Every round number of the expanded rounds lies in [1, totalRounds], and they never go down. */
  lemma {:induction false} BodyRoundsRange(rounds: seq<Round>)
    ensures forall x :: x in BodyRounds(rounds) ==> 1 <= x <= TotalRepeats(rounds)
    ensures NonDecreasing(BodyRounds(rounds))
  {
    if rounds != [] {
      var init, last := rounds[..|rounds| - 1], rounds[|rounds| - 1];
      BodyRoundsRange(init);
      var a, b := BodyRounds(init), Tags(|last.steps|, Repeats(last), TotalRepeats(init) + 1);
      TagsRange(|last.steps|, Repeats(last), TotalRepeats(init) + 1);
      ConcatNonDecreasing(a, b);
    }
  }

  /**
   * The shape of what the builder returns: both lists have 1 + the sum of
   * max(0, repeat) * |steps| entries, entry 0 is the PREPARE step in round 0,
   * and the round map is non-decreasing within [0, totalRounds].
   */
  lemma SequenceShape(rounds: seq<Round>, prepare: nat)
    ensures |Sequence(rounds, prepare)| == |RoundMap(rounds)| == 1 + StepCount(rounds)
    ensures Sequence(rounds, prepare)[0] == Step(Prepare, prepare) && RoundMap(rounds)[0] == 0
    ensures forall k :: 0 <= k < |RoundMap(rounds)| ==> 0 <= RoundMap(rounds)[k] <= TotalRepeats(rounds)
    ensures NonDecreasing(RoundMap(rounds))
  {
    BodyLength(rounds);
    BodyRoundsRange(rounds);
    var m := RoundMap(rounds);
    forall k | 0 < k < |m|
      ensures 1 <= m[k] <= TotalRepeats(rounds)
    {
      assert m[k] in BodyRounds(rounds);
    }
  }

  /** Appending a round with repeat <= 0 adds no steps and no round number. */
  lemma SkippedRound(rounds: seq<Round>, r: Round, prepare: nat)
    requires r.repeat <= 0
    ensures Sequence(rounds + [r], prepare) == Sequence(rounds, prepare)
    ensures RoundMap(rounds + [r]) == RoundMap(rounds)
    ensures TotalRepeats(rounds + [r]) == TotalRepeats(rounds)
  {
    assert (rounds + [r])[..|rounds|] == rounds;
  }

  /** The last round's copies follow the steps built for the rounds before it. */
  lemma LastRoundSteps(rounds: seq<Round>, prepare: nat)
    requires rounds != []
    ensures var r := rounds[|rounds| - 1];
      Sequence(rounds, prepare) == Sequence(rounds[..|rounds| - 1], prepare) + Copies(r.steps, Repeats(r))
  {
  }

  /** The last round's tags follow the round numbers built for the rounds before it. */
  lemma LastRoundTags(rounds: seq<Round>)
    requires rounds != []
    ensures var init, r := rounds[..|rounds| - 1], rounds[|rounds| - 1];
      RoundMap(rounds) == RoundMap(init) + Tags(|r.steps|, Repeats(r), TotalRepeats(init) + 1)
  {
  }

  /** Step `i` of repeat `p` of the last round lands after all earlier steps, at offset `p * |steps| + i`. */
  lemma LastRoundStep(rounds: seq<Round>, prepare: nat, p: nat, i: nat)
    requires rounds != []
    requires p < Repeats(rounds[|rounds| - 1]) && i < |rounds[|rounds| - 1].steps|
    ensures var r := rounds[|rounds| - 1];
      var k := |Sequence(rounds[..|rounds| - 1], prepare)| + p * |r.steps| + i;
      k < |Sequence(rounds, prepare)| && Sequence(rounds, prepare)[k] == r.steps[i]
  {
    var init, r := rounds[..|rounds| - 1], rounds[|rounds| - 1];
    LastRoundSteps(rounds, prepare);
    CopiesAt(r.steps, Repeats(r), p, i);
    ConcatAt(Sequence(init, prepare), Copies(r.steps, Repeats(r)), p * |r.steps| + i);
  }

  /** The same position in the round map holds one past the earlier rounds' total, plus `p`. */
  lemma LastRoundNumber(rounds: seq<Round>, p: nat, i: nat)
    requires rounds != []
    requires p < Repeats(rounds[|rounds| - 1]) && i < |rounds[|rounds| - 1].steps|
    ensures var init, r := rounds[..|rounds| - 1], rounds[|rounds| - 1];
      var k := |RoundMap(init)| + p * |r.steps| + i;
      k < |RoundMap(rounds)| && RoundMap(rounds)[k] == TotalRepeats(init) + 1 + p
  {
    var init, r := rounds[..|rounds| - 1], rounds[|rounds| - 1];
    var first := TotalRepeats(init) + 1;
    var tags := Tags(|r.steps|, Repeats(r), first);
    LastRoundTags(rounds);
    TagsAt(|r.steps|, Repeats(r), first, p, i);
    ConcatAt(RoundMap(init), tags, p * |r.steps| + i);
  }

  lemma ConcatAt<T>(a: seq<T>, b: seq<T>, j: nat)
    requires j < |b|
    ensures |a| + j < |a + b| && (a + b)[|a| + j] == b[j]
  {
  }

  /** The interval screen's definition with 2 rounds of 3 s work and 2 s rest, and no preparation. */
  lemma IntervalsExample()
    ensures var rounds := [Round(2, [Step(Work, 3), Step(Rest, 2)])];
      Sequence(rounds, 0) == [Step(Prepare, 0), Step(Work, 3), Step(Rest, 2), Step(Work, 3), Step(Rest, 2)]
      && RoundMap(rounds) == [0, 1, 1, 2, 2]
      && TotalRepeats(rounds) == 2
  {
    var rounds := [Round(2, [Step(Work, 3), Step(Rest, 2)])];
    assert rounds[..0] == [];
    assert seq(2, _ => 1) == [1, 1];
    assert seq(2, _ => 1 + 2 - 1) == [2, 2];
  }
}

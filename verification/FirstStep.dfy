/**
 What the first step of a pattern is worth. The engine opens a partial on one event that satisfies the first step's
 predicate, and asks nothing else of that step: neither its repetition nor its sign.
 */
module FirstStep {
  import opened Common
  import opened Matching
  import opened Refinement
  import opened GenuineRuns
  import opened Pattern

  /** The first step's predicate does not look at captures: all that the builder makes. */
  ghost predicate ContextFree<E(!new)>(step: Step<E>) {
    forall e: E, captures: seq<Capture<E>> :: Matches(step, e, captures) <==> step.test.evaluate(e)
  }

  /**
   In every run the first block is one capture. So it has a size its step allows if and only if that step is positive
   and asks for at most one capture, and it is described as every later block is (`Done`: greedy, too) if and only if
   that step is positive and allows no more than one.
   */
  lemma FirstBlockIff<E(!new)>(steps: seq<Step<E>>, h: seq<Action<E>>, i: nat, caps: seq<Capture<E>>, r: Run)
    requires WellFormed(steps) && ContextFree(steps[0]) && Trace(steps, h, i, caps, r)
    ensures var first := steps[0];
            && r.stages[1].start - r.stages[0].start == 1
            && (!first.isNegative && BlockFull(first, 1)
                <==> !first.isNegative && (first.repeat.None? || first.repeat.value.min <= 1))
            && (Done(steps, h, caps, r, 0)
                <==> !first.isNegative && (first.repeat.None? || first.repeat.value.max <= 1))
  {
    assert StepWellFormed(steps, 0);
    if !steps[0].isNegative { FirstStageOk(steps, h, i, caps, r); }
  }

  lemma FirstStageOk<E(!new)>(steps: seq<Step<E>>, h: seq<Action<E>>, i: nat, caps: seq<Capture<E>>, r: Run)
    requires WellFormed(steps) && ContextFree(steps[0]) && Trace(steps, h, i, caps, r)
    ensures StageOk(steps, h, caps, r, 0, 1, i + 1, true)
  {
    hide PassOk;
    assert StepWellFormed(steps, 0);
    assert Matches(steps[0], h[i].event, caps[..0]);
    assert CaptureOk(steps, h, caps, r, 0, 0, i + 1);
  }

  /** A one-step pattern emits on each event satisfying its predicate and on nothing else, whatever the step asks. */
  lemma OneStepEmits<E>(steps: seq<Step<E>>, a: Action<E>)
    requires |steps| == 1
    ensures var satisfied := a.Push? && steps[0].test.evaluate(a.event);
            Transition(steps, [], a)
            == Effect([], if satisfied then [[Capture(steps[0].name, a.event)]] else [], [])
  {
    assert Reverse(Finishes(Outcomes(steps, [], a), 0, 0)) == [];
    assert Repeat(Deadline, 0) == [];
  }

  /** `when(p).times(min, max)` is accepted and emits one capture on every single event, however large `min` is. */
  lemma RepeatedFirstTakesOne<E>(name: string, p: E -> bool, min: nat, max: nat, a: Action<E>)
    requires 1 <= min <= max
    ensures var steps := EngineSteps([Positive(name, FromFn(p), None, Eventually, Some(RepeatSpec(min, max)), None)]);
            && WellFormed(steps)
            && Transition(steps, [], a)
               == Effect([], if a.Push? && p(a.event) then [[Capture(name, a.event)]] else [], [])
  {
    var s := [Positive(name, FromFn(p), None, Eventually, Some(RepeatSpec(min, max)), None)];
    FaultlessIsWellFormed(s);
    OneStepEmits(EngineSteps(s), a);
  }

  /** A lone `not_then(p)` with a bound is accepted and emits on the presence of `p`, never on its absence. */
  lemma LoneAbsenceIsPresence<E>(name: string, p: E -> bool, within: I64, a: Action<E>)
    requires within >= 0
    ensures var steps := EngineSteps([Negative(name, FromFn(p), Some(within))]);
            && WellFormed(steps)
            && Transition(steps, [], a)
               == Effect([], if a.Push? && p(a.event) then [[Capture(name, a.event)]] else [], [])
  {
    var s := [Negative(name, FromFn(p), Some(within))];
    FaultlessIsWellFormed(s);
    OneStepEmits(EngineSteps(s), a);
  }

  /**
   The error for a missing `when` is given for the empty pattern only: any single positive step is accepted as a first
   step, whichever call added it.
   */
  lemma NoWhenOnlyIfEmpty<E>(s: seq<BuilderStep<E>>, first: BuilderStep<E>)
    requires first.Positive? && Sane(first)
    ensures Rejects(None, s, NoWhenStep) <==> s == []
    ensures WellFormed(EngineSteps([first]))
  {
    FaultlessIsWellFormed([first]);
  }
}

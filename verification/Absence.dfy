/**
 A terminal `not_then` decides absence exactly: who waits on one is emitted unless a matching event arrives before
 the clock passes its deadline.
 */
module Absence {
  import opened Common
  import opened Matching
  import opened Refinement
  import opened GenuineRuns

  /** A partial waiting on a negative step with a deadline. */
  ghost predicate AwaitsAbsence<E>(steps: seq<Step<E>>, pm: PartialMatch<E>) {
    pm.nextStep < |steps| && steps[pm.nextStep].isNegative && pm.deadline.Some?
  }

  /** Only events and ticks between `m` and `n`. */
  ghost predicate Running<E>(h: seq<Action<E>>, m: nat, n: nat)
    requires n <= |h|
  {
    forall q :: m <= q < n ==> ClockOf(h[q]).Some?
  }

  /** The clock has not passed `d` in any action from `m` through `q`. */
  ghost predicate StillOpen<E>(h: seq<Action<E>>, m: nat, q: nat, d: I64)
    requires q < |h|
  {
    forall t :: m <= t <= q && ClockOf(h[t]).Some? ==> ClockOf(h[t]).value <= d
  }

  /** Event `q`, at or after `m`, is one the negative step forbids, and arrives in time. */
  ghost predicate Cancels<E>(steps: seq<Step<E>>, h: seq<Action<E>>, pm: PartialMatch<E>, m: nat, q: nat)
    requires q < |h| && AwaitsAbsence(steps, pm)
  {
    && m <= q && h[q].Push? && StillOpen(h, m, q, pm.deadline.value)
    && Matches(steps[pm.nextStep], h[q].event, pm.captures)
  }

  ghost predicate Waiting<E>(steps: seq<Step<E>>, h: seq<Action<E>>, pm: PartialMatch<E>, m: nat, n: nat)
    requires n <= |h| && AwaitsAbsence(steps, pm)
  {
    && (forall t :: m <= t < n ==> ClockOf(h[t]).Some? && ClockOf(h[t]).value <= pm.deadline.value)
    && (forall t :: m <= t < n && h[t].Push? ==> !Matches(steps[pm.nextStep], h[t].event, pm.captures))
  }

  lemma WaitingReacts<E>(steps: seq<Step<E>>, pm: PartialMatch<E>, a: Action<E>)
    requires AwaitsAbsence(steps, pm) && ClockOf(a).Some?
    ensures React(steps, pm, a)
         == if ClockOf(a).value > pm.deadline.value then Resolve(pm.captures)
            else if a.Push? && Matches(steps[pm.nextStep], a.event, pm.captures) then Kill
            else Stay(pm)
  {
    hide Matches;
  }

  lemma {:induction false} WaitingOrDecided<E>(steps: seq<Step<E>>, h: seq<Action<E>>, i: nat, m: nat, n: nat)
    requires |steps| > 0 && i < m <= n <= |h| && Running(h, m, n)
    requires Solo(steps, h, i, m).Live? && AwaitsAbsence(steps, Solo(steps, h, i, m).pm)
    ensures var pm, f := Solo(steps, h, i, m).pm, Solo(steps, h, i, n);
            || (f == Live(pm) && Waiting(steps, h, pm, m, n))
            || (f.Gone? && m <= f.at < n && f.outcome == Resolve(pm.captures) && Waiting(steps, h, pm, m, f.at)
                && ClockOf(h[f.at]).value > pm.deadline.value)
            || (f.Gone? && m <= f.at < n && f.outcome == Kill && Cancels(steps, h, pm, m, f.at))
  {
    hide Matches, React;
    if m < n {
      WaitingOrDecided(steps, h, i, m, n - 1);
      WaitingReacts(steps, Solo(steps, h, i, m).pm, h[n - 1]);
    }
  }

  /**
   Absence decided at end of stream: with only events and ticks after action `m` and then a flush, the waiting
   partial is emitted, with the captures it had, if and only if no event cancelled it in time.
   */
  lemma AbsenceDecided<E>(steps: seq<Step<E>>, h: seq<Action<E>>, i: nat, m: nat, n: nat)
    requires |steps| > 0 && i < m <= n < |h| && Running(h, m, n) && h[n].Flush?
    requires Solo(steps, h, i, m).Live? && AwaitsAbsence(steps, Solo(steps, h, i, m).pm)
    ensures var pm, f := Solo(steps, h, i, m).pm, Solo(steps, h, i, n + 1);
            && f.Gone? && m <= f.at <= n
            && (f.outcome == Resolve(pm.captures) <==> !exists q :: m <= q < n && Cancels(steps, h, pm, m, q))
            && (f.outcome == Kill <==> exists q :: m <= q < n && Cancels(steps, h, pm, m, q))
  {
    hide Matches;
    WaitingOrDecided(steps, h, i, m, n);
    var pm, f := Solo(steps, h, i, m).pm, Solo(steps, h, i, n);
    if f.Gone? && f.outcome.Resolve? {
      var clock := ClockOf(h[f.at]);
      assert clock.Some? && clock.value > pm.deadline.value;
    }
  }

  ghost predicate ClockSorted<E>(h: seq<Action<E>>, m: nat, n: nat)
    requires n <= |h|
  {
    forall a, b :: m <= a < b < n && ClockOf(h[a]).Some? && ClockOf(h[b]).Some? ==>
                     ClockOf(h[a]).value <= ClockOf(h[b]).value
  }

  /**
   On a stream whose clock never runs backwards, arriving in time is having a timestamp at most entry time plus
   bound, where entry is the action that brought the partial to the negative step.
   */
  lemma AbsenceOnSortedStream<E>(steps: seq<Step<E>>, h: seq<Action<E>>, i: nat, m: nat, n: nat) returns (entry: nat)
    requires WellFormed(steps) && Inputs(h) && i < m <= n < |h|
    requires Running(h, m, n) && ClockSorted(h, m, n) && h[n].Flush?
    requires Solo(steps, h, i, m).Live? && steps[Solo(steps, h, i, m).pm.nextStep].isNegative
    ensures entry < |h| && h[entry].Push?
    ensures var pm, f := Solo(steps, h, i, m).pm, Solo(steps, h, i, n + 1);
            var step := steps[pm.nextStep];
            && f.Gone? && step.within.Some? && pm.deadline == Some(SaturatingAdd(h[entry].ts, step.within.value))
            && (f.outcome == Resolve(pm.captures) <==>
                forall q :: m <= q < n && h[q].Push? && InWindow(step, h[entry].ts, h[q].ts) ==>
                              !Matches(step, h[q].event, pm.captures))
  {
    hide Matches, Trace, StageOk;
    var pm := Solo(steps, h, i, m).pm;
    var r := LiveIsExplained(steps, h, i, m);
    entry := r.stages[pm.nextStep].entry;
    assert StepWellFormed(steps, pm.nextStep);
    AbsenceDecided(steps, h, i, m, n);
    var step, d := steps[pm.nextStep], pm.deadline.value;
    forall q | m <= q < n && h[q].Push? ensures StillOpen(h, m, q, d) <==> InWindow(step, h[entry].ts, h[q].ts) {
      assert ClockOf(h[q]).value == h[q].ts;
    }
    forall q | m <= q < n && h[q].Push?
      ensures Cancels(steps, h, pm, m, q)
         <==> InWindow(step, h[entry].ts, h[q].ts) && Matches(step, h[q].event, pm.captures)
    {
    }
    var f := Solo(steps, h, i, n + 1);
    if f.outcome != Resolve(pm.captures) {
      var q :| m <= q < n && Cancels(steps, h, pm, m, q);
      assert h[q].Push? && InWindow(step, h[entry].ts, h[q].ts) && Matches(step, h[q].event, pm.captures);
    }
  }

  /** What a solo simulation resolves at `at`, uncrowded, is among what the machine emits there. */
  lemma ResolvedIsEmitted<E>(steps: seq<Step<E>>, h: seq<Action<E>>, i: nat, at: nat)
    requires |steps| > 0 && i < at < |h| && Roomy(steps, h, i, at)
    requires var f := Solo(steps, h, i, at + 1); f.Gone? && f.at == at && f.outcome.Resolve?
    ensures Solo(steps, h, i, at + 1).outcome.resolved in Emitted(steps, h, at)
  {
    hide Solo, Roomy, Emitted;
    MachineEmitsSolos(steps, h, at);
    ResolvedListed(steps, h, i, at, at);
  }

  lemma {:induction false} ResolvedListed<E>(steps: seq<Step<E>>, h: seq<Action<E>>, i: nat, k: nat, at: nat)
    requires |steps| > 0 && i < k <= at < |h| && Roomy(steps, h, i, at)
    requires var f := Solo(steps, h, i, at + 1); f.Gone? && f.at == at && f.outcome.Resolve?
    ensures Solo(steps, h, i, at + 1).outcome.resolved in SoloResolved(steps, h, k, at)
  {
    hide Solo, Roomy;
    if i < k - 1 { ResolvedListed(steps, h, i, k - 1, at); }
  }
}

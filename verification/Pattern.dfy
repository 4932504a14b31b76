/** The pattern builder: what each call does to the steps so far, and exactly which patterns `Emit` accepts. */
module Pattern {
  import opened Common
  import opened Matching
  import opened GenuineRuns
  import Decimal

  datatype BuilderStep<!E> =
    | Positive(name: string, test: Predicate<E>, within: Option<I64>, contiguity: Contiguity,
               repeat: Option<RepeatSpec>, forbidden: Option<Predicate<E>>)
    | Negative(name: string, test: Predicate<E>, within: Option<I64>)

  datatype PatternError =
    | NoWhenStep
    | NotThenMissingWithin(stepName: string)
    | NotThenNotTerminal(stepName: string)
    | CelCompile(stepName: string, reason: string)

  /** A context-free predicate: captures are ignored. */
  function FromFn<E>(p: E -> bool): Predicate<E> {
    Predicate(p, (e: E, _: seq<Capture<E>>) => p(e))
  }

  function EngineStep<E>(s: BuilderStep<E>): Step<E> {
    match s
    case Positive(name, test, within, contiguity, repeat, forbidden) =>
      Step(name, test, within, false, contiguity, repeat, forbidden)
    case Negative(name, test, within) =>
      Step(name, test, within, true, Eventually, None, None)
  }

  /** Field by field: nothing of a step is lost, and a negative is eventual, unrepeated and unguarded. */
  ghost predicate Converted<E>(s: BuilderStep<E>, step: Step<E>) {
    && step.name == s.name && step.test == s.test && step.within == s.within && (step.isNegative <==> s.Negative?)
    && (s.Positive? ==>
          step.contiguity == s.contiguity && step.repeat == s.repeat && step.forbidden == s.forbidden)
    && (s.Negative? ==> step.contiguity == Eventually && step.repeat.None? && step.forbidden.None?)
  }

  function EngineSteps<E>(s: seq<BuilderStep<E>>): (r: seq<Step<E>>)
    ensures |r| == |s|
    ensures forall k {:trigger r[k]} :: 0 <= k < |r| ==> r[k] == EngineStep(s[k])
  {
    seq(|s|, k requires 0 <= k < |s| => EngineStep(s[k]))
  }

  /** What the builder keeps of every step it holds. */
  ghost predicate Sane<E>(s: BuilderStep<E>) {
    && (s.within.Some? ==> s.within.value >= 0)
    && (s.Positive? && s.repeat.Some? ==> 1 <= s.repeat.value.min <= s.repeat.value.max)
  }

  /** The fault of the step at position `k`, if it has one. */
  function FaultAt<E>(s: seq<BuilderStep<E>>, k: nat): Option<PatternError>
    requires k < |s|
  {
    if !s[k].Negative? then None
    else if s[k].within.None? then Some(NotThenMissingWithin(s[k].name))
    else if k != |s| - 1 then Some(NotThenNotTerminal(s[k].name))
    else None
  }

  /** The first negative step that has no bound or is not the last. */
  ghost predicate FirstFaulty<E>(s: seq<BuilderStep<E>>, k: nat) {
    && k < |s| && s[k].Negative? && (s[k].within.None? || k < |s| - 1)
    && forall j :: 0 <= j < k ==> s[j].Positive?
  }

  /** The error is the deferred one, else the empty pattern, else the first faulty step's. */
  ghost predicate Rejects<E>(pending: Option<PatternError>, s: seq<BuilderStep<E>>, e: PatternError) {
    if pending.Some? then e == pending.value
    else if s == [] then e == NoWhenStep
    else exists k :: 0 <= k < |s| && FaultAt(s, k) == Some(e) && forall j :: 0 <= j < k ==> FaultAt(s, j) == None
  }

  /** The step-building calls, in the order a caller chains them. */
  datatype Call<!E> =
    | CallWhen(p: E -> bool)
    | CallNotBetween(p: E -> bool)
    | CallThen(name: string, p: E -> bool)
    | CallNotThen(name: string, p: E -> bool)
    | CallWithin(millis: nat)
    | CallNext
    | CallTimes(min: nat, max: nat)

  datatype Draft<!E> = Draft(steps: seq<BuilderStep<E>>, guard: Option<Predicate<E>>)

  function OnLast<E>(steps: seq<BuilderStep<E>>, edited: BuilderStep<E> -> BuilderStep<E>): seq<BuilderStep<E>> {
    if steps == [] then [] else steps[|steps| - 1 := edited(steps[|steps| - 1])]
  }

  function Apply<E>(d: Draft<E>, c: Call<E>): Draft<E> {
    match c
    case CallWhen(p) =>
      var step := Positive("when_" + Decimal.Digits(|d.steps|), FromFn(p), None, Eventually, None, None);
      d.(steps := if d.steps == [] then [step] else [step] + d.steps[1..])
    case CallNotBetween(p) => d.(guard := Some(FromFn(p)))
    case CallThen(name, p) => Draft(d.steps + [Positive(name, FromFn(p), None, Eventually, None, d.guard)], None)
    case CallNotThen(name, p) => d.(steps := d.steps + [Negative(name, FromFn(p), None)])
    case CallWithin(millis) =>
      d.(steps := OnLast(d.steps, (s: BuilderStep<E>) => s.(within := Some(Clamp(millis)))))
    case CallNext =>
      d.(steps := OnLast(d.steps, (s: BuilderStep<E>) => if s.Positive? then s.(contiguity := Next) else s))
    case CallTimes(min, max) =>
      var lo := if min < 1 then 1 else min;
      var spec := RepeatSpec(lo, if max < lo then lo else max);
      d.(steps := OnLast(d.steps, (s: BuilderStep<E>) => if s.Positive? then s.(repeat := Some(spec)) else s))
  }

  class Builder<E> {
    var name: string
    var timestampFn: Option<E -> I64>
    var steps: seq<BuilderStep<E>>
    var pendingError: Option<PatternError>
    var pendingForbidden: Option<Predicate<E>>

    ghost predicate Valid()
      reads this
    {
      forall k :: 0 <= k < |steps| ==> Sane(steps[k])
    }

    ghost function Drafted(): Draft<E>
      reads this
    {
      Draft(steps, pendingForbidden)
    }

    constructor (name: string)
      ensures Valid() && this.name == name && steps == []
      ensures timestampFn == None && pendingError == None && pendingForbidden == None
    {
      this.name, timestampFn, steps, pendingError, pendingForbidden := name, None, [], None, None;
    }

    method Timestamp(f: E -> I64)
      modifies this`timestampFn
      ensures timestampFn == Some(f)
    {
      timestampFn := Some(f);
    }

    /** A second `when` replaces the first step, whatever it is by then. */
    method When(p: E -> bool)
      requires Valid()
      modifies this`steps
      ensures Valid()
      ensures var step := Positive("when_" + Decimal.Digits(|old(steps)|), FromFn(p), None, Eventually, None, None);
              steps == if old(steps) == [] then [step] else [step] + old(steps)[1..]
      ensures Drafted() == Apply(old(Drafted()), CallWhen(p))
    {
      var step := Positive("when_" + Decimal.Digits(|steps|), FromFn(p), None, Eventually, None, None);
      if |steps| > 0 {
        steps := steps[0 := step];
      } else {
        steps := steps + [step];
      }
    }

    method NotBetween(p: E -> bool)
      modifies this`pendingForbidden
      ensures pendingForbidden == Some(FromFn(p))
      ensures Drafted() == Apply(old(Drafted()), CallNotBetween(p))
    {
      pendingForbidden := Some(FromFn(p));
    }

    method ThenNamed(stepName: string, p: E -> bool)
      requires Valid()
      modifies this`steps, this`pendingForbidden
      ensures Valid() && pendingForbidden == None
      ensures steps == old(steps) + [Positive(stepName, FromFn(p), None, Eventually, None, old(pendingForbidden))]
      ensures Drafted() == Apply(old(Drafted()), CallThen(stepName, p))
    {
      var forbidden := pendingForbidden;
      pendingForbidden := None;
      steps := steps + [Positive(stepName, FromFn(p), None, Eventually, None, forbidden)];
    }

    method NotThenNamed(stepName: string, p: E -> bool)
      requires Valid()
      modifies this`steps
      ensures Valid() && steps == old(steps) + [Negative(stepName, FromFn(p), None)]
      ensures Drafted() == Apply(old(Drafted()), CallNotThen(stepName, p))
    {
      steps := steps + [Negative(stepName, FromFn(p), None)];
    }

    /** Milliseconds beyond 64 bits are clamped. */
    method Within(millis: nat)
      requires Valid()
      modifies this`steps
      ensures Valid() && |steps| == |old(steps)|
      ensures var n := |steps| - 1;
              n >= 0 ==> steps == old(steps)[n := old(steps)[n].(within := Some(Clamp(millis)))]
      ensures Drafted() == Apply(old(Drafted()), CallWithin(millis))
    {
      var ms := Clamp(millis);
      if |steps| > 0 {
        var n := |steps| - 1;
        steps := steps[n := steps[n].(within := Some(ms))];
      }
    }

    method NextContiguous()
      requires Valid()
      modifies this`steps
      ensures Valid() && |steps| == |old(steps)|
      ensures var n := |steps| - 1;
              n >= 0 ==>
                steps == if old(steps)[n].Positive? then old(steps)[n := old(steps)[n].(contiguity := Next)]
                         else old(steps)
      ensures Drafted() == Apply(old(Drafted()), CallNext)
    {
      if |steps| > 0 {
        var n := |steps| - 1;
        if steps[n].Positive? { steps := steps[n := steps[n].(contiguity := Next)]; }
      }
    }

    method Times(min: nat, max: nat)
      requires Valid()
      modifies this`steps
      ensures Valid() && |steps| == |old(steps)|
      ensures var n, lo := |steps| - 1, if min < 1 then 1 else min;
              var spec := RepeatSpec(lo, if max < lo then lo else max);
              n >= 0 ==>
                steps == if old(steps)[n].Positive? then old(steps)[n := old(steps)[n].(repeat := Some(spec))]
                         else old(steps)
      ensures Drafted() == Apply(old(Drafted()), CallTimes(min, max))
    {
      var lo := if min < 1 then 1 else min;
      var hi := if max < lo then lo else max;
      if |steps| > 0 {
        var n := |steps| - 1;
        if steps[n].Positive? { steps := steps[n := steps[n].(repeat := Some(RepeatSpec(lo, hi)))]; }
      }
    }

    /** The first deferred predicate-compilation error is kept for `Emit`. */
    method Defer(stepName: string, reason: string)
      modifies this`pendingError
      ensures pendingError == if old(pendingError).None? then Some(CelCompile(stepName, reason)) else old(pendingError)
    {
      if pendingError.None? { pendingError := Some(CelCompile(stepName, reason)); }
    }

    /**
     Accepts exactly the patterns the engine can run, converting each step; otherwise reports the first fault.
     */
    method Emit<M>(f: Match<E> -> M) returns (r: Result<Compiled<E, M>, PatternError>)
      requires Valid()
      ensures r.Ok? <==> pendingError.None? && WellFormed(EngineSteps(steps))
      ensures r.Ok? ==> r.value == Compiled(name, EngineSteps(steps), f, timestampFn)
      ensures r.Ok? ==> |r.value.steps| == |steps|
      ensures r.Ok? ==> forall k :: 0 <= k < |steps| ==> Converted(steps[k], r.value.steps[k])
      ensures r.Err? ==> Rejects(pendingError, steps, r.error)
      ensures r.Err? && pendingError.None? && steps != [] ==>
                exists k: nat :: FirstFaulty(steps, k)
                            && r.error == if steps[k].within.None? then NotThenMissingWithin(steps[k].name)
                                          else NotThenNotTerminal(steps[k].name)
    {
      if pendingError.Some? { return Err(pendingError.value); }
      if steps == [] { return Err(NoWhenStep); }
      for i := 0 to |steps|
        invariant forall j :: 0 <= j < i ==> FaultAt(steps, j) == None
      {
        if steps[i].Negative? {
          if steps[i].within.None? {
            FaultyIsIllFormed(steps, i);
            NoneFaultyBefore(steps, i);
            return Err(NotThenMissingWithin(steps[i].name));
          }
          if i != |steps| - 1 {
            FaultyIsIllFormed(steps, i);
            NoneFaultyBefore(steps, i);
            return Err(NotThenNotTerminal(steps[i].name));
          }
        }
      }
      FaultlessIsWellFormed(steps);
      return Ok(Compiled(name, EngineSteps(steps), f, timestampFn));
    }
  }

  lemma NoneFaultyBefore<E>(s: seq<BuilderStep<E>>, k: nat)
    requires k < |s| && FaultAt(s, k).Some? && forall j :: 0 <= j < k ==> FaultAt(s, j) == None
    ensures FirstFaulty(s, k)
  {
    forall j | 0 <= j < k ensures s[j].Positive? { assert FaultAt(s, j) == None; }
  }

  lemma FaultyIsIllFormed<E>(s: seq<BuilderStep<E>>, k: nat)
    requires k < |s| && FaultAt(s, k).Some?
    ensures !WellFormed(EngineSteps(s))
  {
    assert EngineSteps(s)[k] == EngineStep(s[k]);
    assert !StepWellFormed(EngineSteps(s), k);
  }

  /** Among steps the builder can hold, faultless and well-formed are the same. */
  lemma FaultlessIsWellFormed<E>(s: seq<BuilderStep<E>>)
    requires s != [] && forall k :: 0 <= k < |s| ==> Sane(s[k])
    ensures WellFormed(EngineSteps(s)) <==> forall k :: 0 <= k < |s| ==> FaultAt(s, k) == None
  {
    var steps := EngineSteps(s);
    forall k | 0 <= k < |s| ensures StepWellFormed(steps, k) <==> FaultAt(s, k) == None {
      assert steps[k] == EngineStep(s[k]);
      assert Sane(s[k]);
    }
    if WellFormed(steps) {
      forall k | 0 <= k < |s| ensures FaultAt(s, k) == None {
        assert StepWellFormed(steps, k);
      }
    }
  }
}

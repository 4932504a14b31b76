/**
 What an accepted pattern's steps are, in terms of the calls that built it: for every step the call it came from, the
 calls that modified it, and the closures it asks.
 */
module BuilderCalls {
  import opened Common
  import opened Matching
  import opened GenuineRuns
  import opened Pattern
  import Decimal

  /** The builder after the first `n` calls on a new one. */
  function Built<E>(calls: seq<Call<E>>, n: nat): Draft<E>
    requires n <= |calls|
  {
    if n == 0 then Draft([], None) else Apply(Built(calls, n - 1), calls[n - 1])
  }

  /** How many steps there are after `n` calls: a `when` adds one only when there is none. */
  function Count<E>(calls: seq<Call<E>>, n: nat): nat
    requires n <= |calls|
  {
    if n == 0 then 0
    else
      var before := Count(calls, n - 1);
      if calls[n - 1].CallThen? || calls[n - 1].CallNotThen? || (calls[n - 1].CallWhen? && before == 0) then before + 1
      else before
  }

  /** Call `j` is where step `k` comes from, until a later one: any `when` is the first step. */
  predicate Sets<E>(calls: seq<Call<E>>, k: nat, j: nat)
    requires j < |calls|
  {
    match calls[j]
    case CallWhen(_) => k == 0
    case CallThen(_, _) => Count(calls, j) == k
    case CallNotThen(_, _) => Count(calls, j) == k
    case _ => false
  }

  /** The last call that step `k` comes from. */
  function Origin<E>(calls: seq<Call<E>>, n: nat, k: nat): (j: nat)
    requires n <= |calls| && k < Count(calls, n)
    ensures j < n && Sets(calls, k, j)
  {
    if Sets(calls, k, n - 1) then n - 1 else Origin(calls, n - 1, k)
  }

  lemma {:induction false} OriginIsLast<E>(calls: seq<Call<E>>, n: nat, k: nat)
    requires n <= |calls| && k < Count(calls, n)
    ensures forall i :: Origin(calls, n, k) < i < n ==> !Sets(calls, k, i)
  {
    if !Sets(calls, k, n - 1) { OriginIsLast(calls, n - 1, k); }
  }

  /** The calls that modify the last step. */
  datatype Kind = Bound | Strictness | Repetition

  predicate IsKind<E>(c: Call<E>, kind: Kind) {
    match kind case Bound => c.CallWithin? case Strictness => c.CallNext? case Repetition => c.CallTimes?
  }

  /** The last of the calls after `j` and before `n` that is of this kind and finds step `k` the last one. */
  function Edit<E>(calls: seq<Call<E>>, n: nat, k: nat, j: nat, kind: Kind): (r: Option<nat>)
    requires j < n <= |calls|
    ensures r.Some? ==> j < r.value < n && IsKind(calls[r.value], kind) && Count(calls, r.value) == k + 1
  {
    if n == j + 1 then None
    else if IsKind(calls[n - 1], kind) && Count(calls, n - 1) == k + 1 then Some(n - 1)
    else Edit(calls, n - 1, k, j, kind)
  }

  lemma {:induction false} EditIsLast<E>(calls: seq<Call<E>>, n: nat, k: nat, j: nat, kind: Kind)
    requires j < n <= |calls|
    ensures var r := Edit(calls, n, k, j, kind);
            forall i :: j < i < n && IsKind(calls[i], kind) && Count(calls, i) == k + 1 ==> r.Some? && i <= r.value
  {
    if n > j + 1 { EditIsLast(calls, n - 1, k, j, kind); }
  }

  /** The last guard given before call `n` and not taken by a `then` since. */
  function Waiting<E>(calls: seq<Call<E>>, n: nat): (r: Option<nat>)
    requires n <= |calls|
    ensures r.Some? ==>
              r.value < n && calls[r.value].CallNotBetween?
              && forall i :: r.value < i < n ==> !calls[i].CallNotBetween? && !calls[i].CallThen?
    ensures r.None? ==>
              forall i :: 0 <= i < n && calls[i].CallNotBetween? ==> exists t :: i < t < n && calls[t].CallThen?
  {
    if n == 0 || calls[n - 1].CallThen? then None
    else if calls[n - 1].CallNotBetween? then Some(n - 1)
    else Waiting(calls, n - 1)
  }

  function NameOf<E>(calls: seq<Call<E>>, j: nat): string
    requires j < |calls|
  {
    match calls[j]
    case CallWhen(_) => "when_" + Decimal.Digits(Count(calls, j))
    case CallThen(name, _) => name
    case CallNotThen(name, _) => name
    case _ => ""
  }

  /** What step `k` is after `n` calls, by the calls alone. */
  ghost predicate AsCalled<E>(calls: seq<Call<E>>, n: nat, k: nat, step: BuilderStep<E>)
    requires n <= |calls| && k < Count(calls, n)
  {
    var j := Origin(calls, n, k);
    Fields(calls, j, Edit(calls, n, k, j, Bound), Edit(calls, n, k, j, Strictness), Edit(calls, n, k, j, Repetition),
           step)
  }

  /** The step that comes from call `j`, modified by these calls. */
  ghost predicate Fields<E>(calls: seq<Call<E>>, j: nat, bound: Option<nat>, strict: Option<nat>, range: Option<nat>,
        step: BuilderStep<E>) {
    && j < |calls|
    && (bound.Some? ==> bound.value < |calls| && calls[bound.value].CallWithin?)
    && (range.Some? ==> range.value < |calls| && calls[range.value].CallTimes?)
    && step.name == NameOf(calls, j)
    && step.within == (if bound.None? then None else Some(Clamp(calls[bound.value].millis)))
    && (step.Negative? <==> calls[j].CallNotThen?)
    && AsksOf(calls, j, step.test)
    && (step.Positive? ==>
          && step.contiguity == (if strict.None? then Eventually else Next)
          && step.repeat == (if range.None? then None
                             else Some(Range(calls[range.value].min, calls[range.value].max)))
          && GuardOf(calls, j, step.forbidden))
  }

  /** The range, with at least one and not upside down. */
  function Range(min: nat, max: nat): (r: RepeatSpec)
    ensures r.min >= 1 && r.max >= r.min && (min >= 1 ==> r.min == min) && (min <= max && max >= 1 ==> r.max == max)
  {
    RepeatSpec(if min < 1 then 1 else min, if max < min || max < 1 then (if min < 1 then 1 else min) else max)
  }

  ghost predicate AsksOf<E>(calls: seq<Call<E>>, j: nat, test: Predicate<E>)
    requires j < |calls|
  {
    match calls[j]
    case CallWhen(p) => test == FromFn(p)
    case CallThen(_, p) => test == FromFn(p)
    case CallNotThen(_, p) => test == FromFn(p)
    case _ => false
  }

  ghost predicate GuardOf<E>(calls: seq<Call<E>>, j: nat, guard: Option<Predicate<E>>)
    requires j < |calls|
  {
    if calls[j].CallThen? && Waiting(calls, j).Some? then guard == Some(FromFn(calls[Waiting(calls, j).value].p))
    else guard == None
  }

  ghost predicate DraftAsCalled<E>(calls: seq<Call<E>>, n: nat, d: Draft<E>)
    requires n <= |calls|
  {
    && |d.steps| == Count(calls, n)
    && d.guard == (if Waiting(calls, n).None? then None else Some(FromFn(calls[Waiting(calls, n).value].p)))
    && forall k :: 0 <= k < |d.steps| ==> AsCalled(calls, n, k, d.steps[k])
  }

  /** A call that sets step `k` leaves it as called. */
  lemma FreshAsCalled<E>(calls: seq<Call<E>>, n: nat, k: nat, before: Draft<E>)
    requires 0 < n <= |calls| && k < Count(calls, n) && Sets(calls, k, n - 1)
    requires DraftAsCalled(calls, n - 1, before)
    ensures var steps := Apply(before, calls[n - 1]).steps; k < |steps| && AsCalled(calls, n, k, steps[k])
  {
    hide AsCalled;
    var steps := Apply(before, calls[n - 1]).steps;
    assert Origin(calls, n, k) == n - 1;
    assert k < |steps|;
    FreshFields(calls, n, k, steps[k]);
  }

  lemma FreshFields<E>(calls: seq<Call<E>>, n: nat, k: nat, step: BuilderStep<E>)
    requires 0 < n <= |calls| && k < Count(calls, n) && Sets(calls, k, n - 1)
    requires step.name == NameOf(calls, n - 1) && step.within == None && AsksOf(calls, n - 1, step.test)
    requires step.Negative? <==> calls[n - 1].CallNotThen?
    requires step.Positive? ==>
               step.contiguity == Eventually && step.repeat == None && GuardOf(calls, n - 1, step.forbidden)
    ensures AsCalled(calls, n, k, step)
  {
    hide NameOf, AsksOf, GuardOf;
    assert Origin(calls, n, k) == n - 1;
  }

  /** A modifier on the last step, and any other call on a step it does not set. */
  function Modified<E>(step: BuilderStep<E>, c: Call<E>, isLast: bool): BuilderStep<E> {
    if !isLast then step
    else match c
      case CallWithin(millis) => step.(within := Some(Clamp(millis)))
      case CallNext => if step.Positive? then step.(contiguity := Next) else step
      case CallTimes(min, max) => if step.Positive? then step.(repeat := Some(Range(min, max))) else step
      case _ => step
  }

  lemma ModifiedAsCalled<E>(calls: seq<Call<E>>, n: nat, k: nat, step: BuilderStep<E>)
    requires 0 < n <= |calls| && k < Count(calls, n - 1) && !Sets(calls, k, n - 1) && AsCalled(calls, n - 1, k, step)
    ensures k < Count(calls, n) && AsCalled(calls, n, k, Modified(step, calls[n - 1], Count(calls, n - 1) == k + 1))
  {
    var j := Origin(calls, n - 1, k);
    assert Origin(calls, n, k) == j && k < Count(calls, n);
    hide Fields, Edit, Sets, Origin, Modified, IsKind, Count;
    EditNext(calls, n, k, j, Bound);
    EditNext(calls, n, k, j, Strictness);
    EditNext(calls, n, k, j, Repetition);
    FieldsModified(calls, j, Edit(calls, n - 1, k, j, Bound), Edit(calls, n - 1, k, j, Strictness),
                   Edit(calls, n - 1, k, j, Repetition), step, n - 1, Count(calls, n - 1) == k + 1);
  }

  lemma FieldsModified<E>(calls: seq<Call<E>>, j: nat, bound: Option<nat>, strict: Option<nat>, range: Option<nat>,
        step: BuilderStep<E>, i: nat, isLast: bool)
    requires i < |calls| && Fields(calls, j, bound, strict, range, step)
    ensures Fields(calls, j, if IsKind(calls[i], Bound) && isLast then Some(i) else bound,
                   if IsKind(calls[i], Strictness) && isLast then Some(i) else strict,
                   if IsKind(calls[i], Repetition) && isLast then Some(i) else range,
                   Modified(step, calls[i], isLast))
  {
    hide NameOf, AsksOf, GuardOf, Range;
  }

  lemma EditNext<E>(calls: seq<Call<E>>, n: nat, k: nat, j: nat, kind: Kind)
    requires j < n - 1 < |calls|
    ensures Edit(calls, n, k, j, kind)
         == if IsKind(calls[n - 1], kind) && Count(calls, n - 1) == k + 1 then Some(n - 1)
            else Edit(calls, n - 1, k, j, kind)
  {
    hide IsKind, Count;
  }

  lemma KeptIsModified<E>(calls: seq<Call<E>>, n: nat, k: nat, before: Draft<E>)
    requires 0 < n <= |calls| && k < |before.steps| == Count(calls, n - 1) && !Sets(calls, k, n - 1)
    ensures var steps := Apply(before, calls[n - 1]).steps;
            k < |steps| && steps[k] == Modified(before.steps[k], calls[n - 1], Count(calls, n - 1) == k + 1)
  {
  }

  lemma {:induction false} BuiltAsCalled<E>(calls: seq<Call<E>>, n: nat)
    requires n <= |calls|
    ensures DraftAsCalled(calls, n, Built(calls, n))
  {
    if n == 0 { return; }
    BuiltAsCalled(calls, n - 1);
    var before, after := Built(calls, n - 1), Built(calls, n);
    ApplyCounts(calls, n, before);
    hide AsCalled, Apply, Sets;
    forall k | 0 <= k < |after.steps| ensures k < Count(calls, n) && AsCalled(calls, n, k, after.steps[k]) {
      if Sets(calls, k, n - 1) {
        FreshAsCalled(calls, n, k, before);
      } else {
        SetOrKept(calls, n, k);
        KeptIsModified(calls, n, k, before);
        ModifiedAsCalled(calls, n, k, before.steps[k]);
      }
    }
  }

  lemma SetOrKept<E>(calls: seq<Call<E>>, n: nat, k: nat)
    requires 0 < n <= |calls| && k < Count(calls, n) && !Sets(calls, k, n - 1)
    ensures k < Count(calls, n - 1)
  {
  }

  lemma ApplyCounts<E>(calls: seq<Call<E>>, n: nat, before: Draft<E>)
    requires 0 < n <= |calls| && DraftAsCalled(calls, n - 1, before)
    ensures var after := Apply(before, calls[n - 1]);
            && |after.steps| == Count(calls, n)
            && after.guard == (if Waiting(calls, n).None? then None
                               else Some(FromFn(calls[Waiting(calls, n).value].p)))
  {
    hide AsCalled;
  }

  /** The closure of the call a step comes from. */
  function Closure<E>(c: Call<E>): E -> bool
    requires c.CallWhen? || c.CallNotBetween? || c.CallThen? || c.CallNotThen?
  {
    c.p
  }

  /**
   An accepted pattern is the one that was called for: step `k` has the name, sign and closure of the call it comes
   from, the guard that was waiting then, and the last bound, strictness and range given while it was the last step.
   */
  lemma EmittedAsCalled<E>(calls: seq<Call<E>>, k: nat, e: E, captures: seq<Capture<E>>)
    requires k < Count(calls, |calls|)
    ensures var n := |calls|;
            var steps, j := EngineSteps(Built(calls, n).steps), Origin(calls, n, k);
            var bound, strict, range :=
              Edit(calls, n, k, j, Bound), Edit(calls, n, k, j, Strictness), Edit(calls, n, k, j, Repetition);
            && |steps| == Count(calls, n)
            && var step := steps[k];
               && step.name == NameOf(calls, j) && (step.isNegative <==> calls[j].CallNotThen?)
               && (Matches(step, e, captures) <==> Closure(calls[j])(e))
               && (step.test.evaluate(e) <==> Closure(calls[j])(e))
               && step.within == (if bound.None? then None else Some(Clamp(calls[bound.value].millis)))
               && (step.contiguity == Next <==> !step.isNegative && strict.Some?)
               && step.repeat == (if step.isNegative || range.None? then None
                                  else Some(Range(calls[range.value].min, calls[range.value].max)))
               && (Guarded(step, e, captures)
                   <==> calls[j].CallThen? && Waiting(calls, j).Some? && Closure(calls[Waiting(calls, j).value])(e))
  {
    BuiltAsCalled(calls, |calls|);
    var d := Built(calls, |calls|);
    assert AsCalled(calls, |calls|, k, d.steps[k]);
    assert EngineSteps(d.steps)[k] == EngineStep(d.steps[k]);
    hide Built, DraftAsCalled;
  }
}

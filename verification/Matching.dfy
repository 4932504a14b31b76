/**
 The event-pattern matcher as a state machine over values: what one action does to one
 partial match (`React`), and what it does to the whole in-flight list (`Transition`).
 The class `Engine.Runtime` is proved to compute exactly these functions.
 */
module Matching {
  import opened Common

  const MAX_IN_FLIGHT: nat := 1024

  datatype Capture<E> = Capture(name: string, event: E)

  datatype Match<E> = Match(patternName: string, captures: seq<Capture<E>>)

  /** The `when` step asks `evaluate`; every later step asks `evaluateInContext`. */
  datatype Predicate<!E> = Predicate(evaluate: E -> bool, evaluateInContext: (E, seq<Capture<E>>) -> bool)

  datatype Contiguity = Eventually | Next

  datatype RepeatSpec = RepeatSpec(min: nat, max: nat)

  datatype Step<!E> = Step(
    name: string,
    test: Predicate<E>,
    within: Option<I64>,
    isNegative: bool,
    contiguity: Contiguity,
    repeat: Option<RepeatSpec>,
    forbidden: Option<Predicate<E>>)

  datatype Compiled<!E, M> = Compiled(
    name: string,
    steps: seq<Step<E>>,
    emit: Match<E> -> M,
    timestamp: Option<E -> I64>)

  datatype PartialMatch<E> = PartialMatch(
    captures: seq<Capture<E>>,
    nextStep: nat,
    deadline: Option<I64>,
    repeatCount: nat)

  datatype DropReason = MaxInFlight | Deadline | Late

  /**
   One input to the matcher. `Offer` is the middle phase of a push on its own: the event is
   shown to the partials without a deadline sweep before it or an opening after it.
   */
  datatype Action<E> =
    | Push(event: E, ts: I64)
    | Tick(now: I64)
    | Offer(offered: E, at: I64)
    | Flush
    | Reset

  /**
   What an action does to one partial.
   `Resolve` and `Finish` both emit: `Resolve` by a deadline sweep or a flush, `Finish` by the event itself.
   */
  datatype Outcome<E> =
    | Stay(pm: PartialMatch<E>)
    | Resolve(resolved: seq<Capture<E>>)
    | Finish(finished: seq<Capture<E>>)
    | Lapse
    | Kill

  /** Every index the engine takes into the step list is in range. */
  ghost predicate Sound<E>(steps: seq<Step<E>>, pm: PartialMatch<E>) {
    pm.nextStep < |steps|
  }

  ghost predicate AllSound<E>(steps: seq<Step<E>>, ps: seq<PartialMatch<E>>) {
    forall k :: 0 <= k < |ps| ==> Sound(steps, ps[k])
  }

  function DeadlineFor<E>(steps: seq<Step<E>>, stepIdx: nat, refTs: I64): Option<I64> {
    if stepIdx >= |steps| then None
    else match steps[stepIdx].within
      case None => None
      case Some(ms) => Some(SaturatingAdd(refTs, ms))
  }

  predicate Expired<E>(pm: PartialMatch<E>, ts: I64) {
    pm.deadline.Some? && ts > pm.deadline.value
  }

  function Advanced<E>(steps: seq<Step<E>>, pm: PartialMatch<E>, ts: I64): PartialMatch<E> {
    PartialMatch(pm.captures, pm.nextStep + 1, DeadlineFor(steps, pm.nextStep + 1, ts), 0)
  }

  function AdvanceOutcome<E>(steps: seq<Step<E>>, pm: PartialMatch<E>, ts: I64): Outcome<E> {
    var next := Advanced(steps, pm, ts);
    if next.nextStep >= |steps| then Finish(next.captures) else Stay(next)
  }

  function Matches<E>(step: Step<E>, event: E, captures: seq<Capture<E>>): bool {
    step.test.evaluateInContext(event, captures)
  }

  function Guarded<E>(step: Step<E>, event: E, captures: seq<Capture<E>>): bool {
    step.forbidden.Some? && step.forbidden.value.evaluateInContext(event, captures)
  }

  function Captured<E>(step: Step<E>, pm: PartialMatch<E>, event: E): PartialMatch<E> {
    pm.(captures := pm.captures + [Capture(step.name, event)],
        repeatCount := if step.repeat.Some? then pm.repeatCount + 1 else pm.repeatCount)
  }

  /** One event shown to one partial, including the rounds in which it is re-shown to a following step. */
  function OfferOutcome<E>(steps: seq<Step<E>>, pm: PartialMatch<E>, event: E, ts: I64): (o: Outcome<E>)
    requires Sound(steps, pm)
    ensures o.Stay? ==> Sound(steps, o.pm)
    ensures !o.Resolve? && !o.Lapse?
    decreases |steps| - pm.nextStep
  {
    var step := steps[pm.nextStep];
    var matches := Matches(step, event, pm.captures);
    if step.isNegative then
      if matches then Kill else Stay(pm)
    else if !matches && Guarded(step, event, pm.captures) then
      Kill
    else if matches then
      var captured := Captured(step, pm, event);
      if step.repeat.Some? && captured.repeatCount < step.repeat.value.max then Stay(captured)
      else AdvanceOutcome(steps, captured, ts)
    else if step.repeat.Some? && pm.repeatCount >= step.repeat.value.min then
      match AdvanceOutcome(steps, pm, ts)
      case Stay(next) => OfferOutcome(steps, next, event, ts)
      case done => done
    else if step.contiguity == Next then Kill
    else Stay(pm)
  }

  /** How many times the matcher's loop looks at one event for one partial. */
  function Rounds<E>(steps: seq<Step<E>>, pm: PartialMatch<E>, event: E, ts: I64): nat
    requires Sound(steps, pm)
    decreases |steps| - pm.nextStep
  {
    var step := steps[pm.nextStep];
    if step.isNegative || Matches(step, event, pm.captures) || Guarded(step, event, pm.captures)
       || !(step.repeat.Some? && pm.repeatCount >= step.repeat.value.min) || pm.nextStep + 1 >= |steps| then 1
    else 1 + Rounds(steps, Advanced(steps, pm, ts), event, ts)
  }

  /** Deadline sweep at `now`: the test is strict, so a deadline of exactly `now` is still open. */
  function SweepOutcome<E>(steps: seq<Step<E>>, pm: PartialMatch<E>, now: I64): Outcome<E>
    requires Sound(steps, pm)
  {
    if !Expired(pm, now) then Stay(pm)
    else if steps[pm.nextStep].isNegative then Resolve(pm.captures)
    else Lapse
  }

  /** End of stream: a negative, or a final repeat that has reached its minimum, resolves. */
  function FlushOutcome<E>(steps: seq<Step<E>>, pm: PartialMatch<E>): Outcome<E>
    requires Sound(steps, pm)
  {
    var step := steps[pm.nextStep];
    if step.isNegative || (pm.nextStep + 1 >= |steps| && step.repeat.Some? && pm.repeatCount >= step.repeat.value.min)
    then Resolve(pm.captures)
    else Stay(pm)
  }

  function React<E>(steps: seq<Step<E>>, pm: PartialMatch<E>, a: Action<E>): (o: Outcome<E>)
    requires Sound(steps, pm)
    ensures o.Stay? ==> Sound(steps, o.pm)
  {
    match a
    case Push(event, ts) =>
      var swept := SweepOutcome(steps, pm, ts);
      if swept.Stay? then OfferOutcome(steps, pm, event, ts) else swept
    case Tick(now) => SweepOutcome(steps, pm, now)
    case Offer(event, ts) => OfferOutcome(steps, pm, event, ts)
    case Flush => FlushOutcome(steps, pm)
    case Reset => Kill
  }

  // ---- An action on the whole in-flight list, oldest partial first ----

  function Outcomes<E>(steps: seq<Step<E>>, ps: seq<PartialMatch<E>>, a: Action<E>): (r: seq<Outcome<E>>)
    requires AllSound(steps, ps)
    ensures |r| == |ps|
    ensures forall k {:trigger r[k]} :: 0 <= k < |r| ==> r[k] == React(steps, ps[k], a)
    ensures SoundOutcomes(steps, r)
  {
    seq(|ps|, k requires 0 <= k < |ps| => React(steps, ps[k], a))
  }

  ghost predicate SoundOutcomes<E>(steps: seq<Step<E>>, os: seq<Outcome<E>>) {
    forall k :: 0 <= k < |os| && os[k].Stay? ==> Sound(steps, os[k].pm)
  }

  // The outcomes lo..hi, in order, of each kind.

  function Stayers<E>(os: seq<Outcome<E>>, lo: nat, hi: nat): (r: seq<PartialMatch<E>>)
    requires lo <= hi <= |os|
    ensures |r| <= hi - lo
  {
    if lo == hi then [] else Stayers(os, lo, hi - 1) + (if os[hi - 1].Stay? then [os[hi - 1].pm] else [])
  }

  function Resolutions<E>(os: seq<Outcome<E>>, lo: nat, hi: nat): (r: seq<seq<Capture<E>>>)
    requires lo <= hi <= |os|
  {
    if lo == hi then [] else Resolutions(os, lo, hi - 1) + (if os[hi - 1].Resolve? then [os[hi - 1].resolved] else [])
  }

  function Finishes<E>(os: seq<Outcome<E>>, lo: nat, hi: nat): (r: seq<seq<Capture<E>>>)
    requires lo <= hi <= |os|
  {
    if lo == hi then [] else Finishes(os, lo, hi - 1) + (if os[hi - 1].Finish? then [os[hi - 1].finished] else [])
  }

  function Lapses<E>(os: seq<Outcome<E>>, lo: nat, hi: nat): nat
    requires lo <= hi <= |os|
  {
    if lo == hi then 0 else Lapses(os, lo, hi - 1) + (if os[hi - 1].Lapse? then 1 else 0)
  }

  function Kills<E>(os: seq<Outcome<E>>, lo: nat, hi: nat): nat
    requires lo <= hi <= |os|
  {
    if lo == hi then 0 else Kills(os, lo, hi - 1) + (if os[hi - 1].Kill? then 1 else 0)
  }

  function Staying<E>(steps: seq<Step<E>>, ps: seq<PartialMatch<E>>, a: Action<E>): (r: seq<PartialMatch<E>>)
    requires AllSound(steps, ps)
    ensures AllSound(steps, r) && |r| <= |ps|
  {
    var os := Outcomes(steps, ps, a);
    StayersSound(steps, os, 0, |os|);
    Stayers(os, 0, |os|)
  }

  lemma {:induction false} StayersSound<E>(steps: seq<Step<E>>, os: seq<Outcome<E>>, lo: nat, hi: nat)
    requires SoundOutcomes(steps, os) && lo <= hi <= |os|
    ensures AllSound(steps, Stayers(os, lo, hi))
  {
    if lo < hi { StayersSound(steps, os, lo, hi - 1); }
  }

  lemma {:induction false} StayersSplit<E>(os: seq<Outcome<E>>, lo: nat, mid: nat, hi: nat)
    requires lo <= mid <= hi <= |os|
    ensures Stayers(os, lo, hi) == Stayers(os, lo, mid) + Stayers(os, mid, hi)
  {
    if mid < hi { StayersSplit(os, lo, mid, hi - 1); }
  }

  lemma {:induction false} FinishesSplit<E>(os: seq<Outcome<E>>, lo: nat, mid: nat, hi: nat)
    requires lo <= mid <= hi <= |os|
    ensures Finishes(os, lo, hi) == Finishes(os, lo, mid) + Finishes(os, mid, hi)
  {
    if mid < hi { FinishesSplit(os, lo, mid, hi - 1); }
  }

  predicate Opens<E>(steps: seq<Step<E>>, a: Action<E>)
    requires |steps| > 0
  {
    a.Push? && steps[0].test.evaluate(a.event)
  }

  function Fresh<E>(steps: seq<Step<E>>, event: E, ts: I64): PartialMatch<E>
    requires |steps| > 0
  {
    PartialMatch([Capture(steps[0].name, event)], 1, DeadlineFor(steps, 1, ts), 0)
  }

  function Opening<E>(steps: seq<Step<E>>, a: Action<E>): (r: seq<PartialMatch<E>>)
    requires |steps| > 0
    ensures AllSound(steps, r)
  {
    if Opens(steps, a) && |steps| > 1 then [Fresh(steps, a.event, a.ts)] else []
  }

  function Immediate<E>(steps: seq<Step<E>>, a: Action<E>): seq<seq<Capture<E>>>
    requires |steps| > 0
  {
    if Opens(steps, a) && |steps| == 1 then [Fresh(steps, a.event, a.ts).captures] else []
  }

  function Evict<E>(ps: seq<PartialMatch<E>>): seq<PartialMatch<E>> {
    if |ps| > MAX_IN_FLIGHT then ps[1..] else ps
  }

  function Repeat(reason: DropReason, n: nat): (r: seq<DropReason>)
    ensures |r| == n && forall k :: 0 <= k < n ==> r[k] == reason
  {
    seq(n, _ => reason)
  }

  datatype Effect<E> = Effect(
    inFlight: seq<PartialMatch<E>>,
    emitted: seq<seq<Capture<E>>>,
    drops: seq<DropReason>)

  /** Sweep and flush emissions oldest first, then completions newest first, then a one-step match. */
  function Assemble<E>(steps: seq<Step<E>>, os: seq<Outcome<E>>, a: Action<E>): (r: Effect<E>)
    requires |steps| > 0 && SoundOutcomes(steps, os)
    ensures AllSound(steps, r.inFlight)
    ensures |os| <= MAX_IN_FLIGHT ==> |r.inFlight| <= MAX_IN_FLIGHT
  {
    var n := |os|;
    StayersSound(steps, os, 0, n);
    var grown := Stayers(os, 0, n) + Opening(steps, a);
    Effect(
      Evict(grown),
      Resolutions(os, 0, n) + Reverse(Finishes(os, 0, n)) + Immediate(steps, a),
      Repeat(Deadline, Lapses(os, 0, n)) + (if |grown| > MAX_IN_FLIGHT then [MaxInFlight] else []))
  }

  function Transition<E>(steps: seq<Step<E>>, ps: seq<PartialMatch<E>>, a: Action<E>): (r: Effect<E>)
    requires |steps| > 0 && AllSound(steps, ps)
    ensures AllSound(steps, r.inFlight)
    ensures |ps| <= MAX_IN_FLIGHT ==> |r.inFlight| <= MAX_IN_FLIGHT
  {
    Assemble(steps, Outcomes(steps, ps, a), a)
  }

  function Then<E>(first: Effect<E>, next: Effect<E>): Effect<E> {
    Effect(next.inFlight, first.emitted + next.emitted, first.drops + next.drops)
  }

  /** A run: the first `n` actions one after the other, emissions and drops concatenated. */
  function Exec<E>(steps: seq<Step<E>>, ps: seq<PartialMatch<E>>, actions: seq<Action<E>>, n: nat): (r: Effect<E>)
    requires |steps| > 0 && AllSound(steps, ps) && n <= |actions|
    ensures AllSound(steps, r.inFlight)
    ensures |ps| <= MAX_IN_FLIGHT ==> |r.inFlight| <= MAX_IN_FLIGHT
  {
    if n == 0 then Effect(ps, [], [])
    else
      var before := Exec(steps, ps, actions, n - 1);
      Then(before, Transition(steps, before.inFlight, actions[n - 1]))
  }

  lemma {:induction false} ExecPrefix<E>(steps: seq<Step<E>>, ps: seq<PartialMatch<E>>, a: seq<Action<E>>,
        b: seq<Action<E>>, n: nat)
    requires |steps| > 0 && AllSound(steps, ps) && n <= |a|
    ensures Exec(steps, ps, a + b, n) == Exec(steps, ps, a, n)
  {
    hide Transition;
    if n > 0 { ExecPrefix(steps, ps, a, b, n - 1); }
  }

  /** Running `a` and then `b` is running their concatenation. */
  lemma {:induction false} ExecConcat<E>(steps: seq<Step<E>>, ps: seq<PartialMatch<E>>, a: seq<Action<E>>,
        b: seq<Action<E>>, n: nat)
    requires |steps| > 0 && AllSound(steps, ps) && n <= |b|
    ensures var first := Exec(steps, ps, a, |a|);
            Exec(steps, ps, a + b, |a| + n) == Then(first, Exec(steps, first.inFlight, b, n))
  {
    hide Transition;
    var first, k := Exec(steps, ps, a, |a|), |a| + n;
    if n == 0 {
      ExecPrefix(steps, ps, a, b, |a|);
      ThenNothing(first);
    } else {
      ExecConcat(steps, ps, a, b, n - 1);
      var middle, last := Exec(steps, first.inFlight, b, n - 1), b[n - 1];
      assert (a + b)[k - 1] == last;
      var step := Transition(steps, middle.inFlight, last);
      ThenAssociative(first, middle, step);
      assert Exec(steps, ps, a + b, k) == Then(Exec(steps, ps, a + b, k - 1), step);
      assert Exec(steps, first.inFlight, b, n) == Then(middle, step);
    }
  }

  lemma ThenNothing<E>(e: Effect<E>)
    ensures Then(e, Effect(e.inFlight, [], [])) == e
  {
    assert e.emitted + [] == e.emitted && e.drops + [] == e.drops;
  }

  lemma ThenAssociative<E>(a: Effect<E>, b: Effect<E>, c: Effect<E>)
    ensures Then(Then(a, b), c) == Then(a, Then(b, c))
  {
    assert (a.emitted + b.emitted) + c.emitted == a.emitted + (b.emitted + c.emitted);
    assert (a.drops + b.drops) + c.drops == a.drops + (b.drops + c.drops);
  }
}

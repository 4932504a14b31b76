/** A clock tick only changes when results appear: never which, never how many, never what stays in flight. */
module ClockTicks {
  import opened Common
  import opened Matching
  import opened Engine
  import opened Refinement
  import opened GenuineRuns

  /** Same state and drops, and the same emissions up to order. */
  ghost predicate Same<E>(x: Effect<E>, y: Effect<E>) {
    x.inFlight == y.inFlight && x.drops == y.drops && multiset(x.emitted) == multiset(y.emitted)
  }

  /** An action whose clock is at least `t`. */
  ghost predicate NotBefore<E>(a: Action<E>, t: I64) {
    ClockOf(a).Some? && t <= ClockOf(a).value
  }

  lemma TickThenReacts<E>(steps: seq<Step<E>>, pm: PartialMatch<E>, t: I64, a: Action<E>)
    requires Sound(steps, pm) && NotBefore(a, t)
    ensures var o := React(steps, pm, Tick(t));
            if o.Stay? then o.pm == pm else React(steps, pm, a) == o && (o.Resolve? || o.Lapse?)
  {
    hide OfferOutcome;
  }

  /** Where the sweep leaves the `n`-th partial, when it leaves it. */
  lemma SweptPlace<E>(steps: seq<Step<E>>, ps: seq<PartialMatch<E>>, t: I64, n: nat)
    requires AllSound(steps, ps) && n <= |ps|
    ensures var swept, kept := Outcomes(steps, ps, Tick(t)), Staying(steps, ps, Tick(t));
            var m := |Stayers(swept, 0, n)|;
            m <= |kept| && (n > 0 && swept[n - 1].Stay? ==> m > 0 && kept[m - 1] == swept[n - 1].pm)
  {
    hide React;
    var swept, kept := Outcomes(steps, ps, Tick(t)), Staying(steps, ps, Tick(t));
    StayersSplit(swept, 0, n, |ps|);
    if n > 0 && swept[n - 1].Stay? {
      assert kept[|Stayers(swept, 0, n)| - 1] == Stayers(swept, 0, n)[|Stayers(swept, 0, n)| - 1];
    }
  }

  /** A sweep at `t` before an action no earlier than `t`: the first `n` partials. */
  lemma {:induction false} SweepFirst<E>(steps: seq<Step<E>>, ps: seq<PartialMatch<E>>, t: I64, a: Action<E>, n: nat)
    requires AllSound(steps, ps) && NotBefore(a, t) && n <= |ps|
    ensures var direct, swept := Outcomes(steps, ps, a), Outcomes(steps, ps, Tick(t));
            var kept := Staying(steps, ps, Tick(t));
            var later, m := Outcomes(steps, kept, a), |Stayers(swept, 0, n)|;
            && m <= |kept|
            && Stayers(direct, 0, n) == Stayers(later, 0, m)
            && Finishes(direct, 0, n) == Finishes(later, 0, m)
  {
    hide React;
    SweptPlace(steps, ps, t, n);
    if n > 0 {
      SweepFirst(steps, ps, t, a, n - 1);
      SweptPlace(steps, ps, t, n - 1);
      TickThenReacts(steps, ps[n - 1], t, a);
    }
  }

  ghost function Bag<E>(o: Outcome<E>): multiset<seq<Capture<E>>> {
    if o.Resolve? then multiset{o.resolved} else multiset{}
  }

  ghost function ResolvedBag<E>(os: seq<Outcome<E>>, n: nat): multiset<seq<Capture<E>>>
    requires n <= |os|
  {
    multiset(Resolutions(os, 0, n))
  }

  lemma OneMoreResolved<E>(os: seq<Outcome<E>>, n: nat)
    requires n < |os|
    ensures ResolvedBag(os, n + 1) == ResolvedBag(os, n) + Bag(os[n])
  {
  }

  lemma NoMoreResolved<E>(os: seq<Outcome<E>>, n: nat)
    requires n < |os| && !os[n].Resolve?
    ensures ResolvedBag(os, n + 1) == ResolvedBag(os, n)
  {
  }

  lemma LateMove<T>(d: multiset<T>, s: multiset<T>, l: multiset<T>, x: multiset<T>, d': multiset<T>, l': multiset<T>)
    requires d == s + l && d' == d + x && l' == l + x
    ensures d' == s + l'
  {
  }

  lemma EarlyMove<T>(d: multiset<T>, s: multiset<T>, l: multiset<T>, x: multiset<T>, d': multiset<T>, s': multiset<T>)
    requires d == s + l && d' == d + x && s' == s + x
    ensures d' == s' + l
  {
  }

  /** What `a` resolves of the first `n` partials is what a sweep at `t` first resolves, and what `a` then does. */
  ghost predicate ResolvesAlike<E>(steps: seq<Step<E>>, ps: seq<PartialMatch<E>>, t: I64, a: Action<E>, n: nat)
    requires AllSound(steps, ps) && n <= |ps|
  {
    var direct, swept := Outcomes(steps, ps, a), Outcomes(steps, ps, Tick(t));
    var later, m := Outcomes(steps, Staying(steps, ps, Tick(t)), a), |Stayers(swept, 0, n)|;
    m <= |later| && ResolvedBag(direct, n) == ResolvedBag(swept, n) + ResolvedBag(later, m)
  }

  lemma ResolvesLater<E>(steps: seq<Step<E>>, ps: seq<PartialMatch<E>>, t: I64, a: Action<E>, n: nat)
    requires AllSound(steps, ps) && NotBefore(a, t) && n < |ps| && ResolvesAlike(steps, ps, t, a, n)
    requires React(steps, ps[n], Tick(t)).Stay?
    ensures ResolvesAlike(steps, ps, t, a, n + 1)
  {
    hide React, ResolvedBag, Bag, Stayers;
    var direct, swept := Outcomes(steps, ps, a), Outcomes(steps, ps, Tick(t));
    var kept, m := Staying(steps, ps, Tick(t)), |Stayers(swept, 0, n)|;
    var later := Outcomes(steps, kept, a);
    TickThenReacts(steps, ps[n], t, a);
    StayerAt(swept, n);
    assert later[m] == direct[n];
    OneMoreResolved(direct, n);
    NoMoreResolved(swept, n);
    OneMoreResolved(later, m);
    LateMove(ResolvedBag(direct, n), ResolvedBag(swept, n), ResolvedBag(later, m), Bag(direct[n]),
             ResolvedBag(direct, n + 1), ResolvedBag(later, m + 1));
  }

  lemma ResolvesNow<E>(steps: seq<Step<E>>, ps: seq<PartialMatch<E>>, t: I64, a: Action<E>, n: nat)
    requires AllSound(steps, ps) && NotBefore(a, t) && n < |ps| && ResolvesAlike(steps, ps, t, a, n)
    requires !React(steps, ps[n], Tick(t)).Stay?
    ensures ResolvesAlike(steps, ps, t, a, n + 1)
  {
    hide React, ResolvedBag, Bag;
    var direct, swept := Outcomes(steps, ps, a), Outcomes(steps, ps, Tick(t));
    var later, m := Outcomes(steps, Staying(steps, ps, Tick(t)), a), |Stayers(swept, 0, n)|;
    TickThenReacts(steps, ps[n], t, a);
    assert direct[n] == swept[n] && Stayers(swept, 0, n + 1) == Stayers(swept, 0, n);
    OneMoreResolved(direct, n);
    OneMoreResolved(swept, n);
    EarlyMove(ResolvedBag(direct, n), ResolvedBag(swept, n), ResolvedBag(later, m), Bag(direct[n]),
              ResolvedBag(direct, n + 1), ResolvedBag(swept, n + 1));
  }

  lemma ResolvesNone<E>(steps: seq<Step<E>>, ps: seq<PartialMatch<E>>, t: I64, a: Action<E>)
    requires AllSound(steps, ps)
    ensures ResolvesAlike(steps, ps, t, a, 0)
  {
    hide React;
  }

  lemma {:induction false} SweepResolves<E>(steps: seq<Step<E>>, ps: seq<PartialMatch<E>>, t: I64, a: Action<E>, n: nat)
    requires AllSound(steps, ps) && NotBefore(a, t) && n <= |ps|
    ensures ResolvesAlike(steps, ps, t, a, n)
  {
    hide React, ResolvesAlike;
    if n == 0 {
      ResolvesNone(steps, ps, t, a);
    } else {
      SweepResolves(steps, ps, t, a, n - 1);
      if React(steps, ps[n - 1], Tick(t)).Stay? {
        ResolvesLater(steps, ps, t, a, n - 1);
      } else {
        ResolvesNow(steps, ps, t, a, n - 1);
      }
    }
  }

  lemma {:induction false} SweepLapses<E>(steps: seq<Step<E>>, ps: seq<PartialMatch<E>>, t: I64, a: Action<E>, n: nat)
    requires AllSound(steps, ps) && NotBefore(a, t) && n <= |ps|
    ensures var direct, swept := Outcomes(steps, ps, a), Outcomes(steps, ps, Tick(t));
            var later, m := Outcomes(steps, Staying(steps, ps, Tick(t)), a), |Stayers(swept, 0, n)|;
            m <= |later| && Lapses(direct, 0, n) == Lapses(swept, 0, n) + Lapses(later, 0, m)
  {
    hide React;
    SweptPlace(steps, ps, t, n);
    if n > 0 {
      SweepLapses(steps, ps, t, a, n - 1);
      SweptPlace(steps, ps, t, n - 1);
      TickThenReacts(steps, ps[n - 1], t, a);
    }
  }

  /** One tick before one action no earlier than it. */
  lemma TickBefore<E>(steps: seq<Step<E>>, ps: seq<PartialMatch<E>>, t: I64, a: Action<E>)
    requires |steps| > 0 && AllSound(steps, ps) && |ps| <= MAX_IN_FLIGHT && NotBefore(a, t)
    ensures var ticked := Transition(steps, ps, Tick(t));
            Same(Then(ticked, Transition(steps, ticked.inFlight, a)), Transition(steps, ps, a))
  {
    hide React, Transition;
    var swept := Outcomes(steps, ps, Tick(t));
    var kept := Staying(steps, ps, Tick(t));
    var later, direct := Outcomes(steps, kept, a), Outcomes(steps, ps, a);
    SweepFirst(steps, ps, t, a, |ps|);
    SweepResolves(steps, ps, t, a, |ps|);
    SweepLapses(steps, ps, t, a, |ps|);
    TickIsSweep(steps, ps, t);
    Assembled(steps, ps, a);
    Assembled(steps, kept, a);
    assert |Stayers(swept, 0, |ps|)| == |kept|;
    RepeatSum(Deadline, Lapses(swept, 0, |swept|), Lapses(later, 0, |later|));
    var tail := Reverse(Finishes(later, 0, |later|)) + Immediate(steps, a);
    MultisetOfParts(Resolutions(swept, 0, |swept|), Resolutions(later, 0, |later|), Resolutions(direct, 0, |direct|),
                    Reverse(Finishes(later, 0, |later|)), Immediate(steps, a));
  }

  lemma Assembled<E>(steps: seq<Step<E>>, ps: seq<PartialMatch<E>>, a: Action<E>)
    requires |steps| > 0 && AllSound(steps, ps)
    ensures Transition(steps, ps, a) == Assemble(steps, Outcomes(steps, ps, a), a)
  {
    hide React;
  }

  lemma RepeatSum(reason: DropReason, m: nat, n: nat)
    ensures forall tail: seq<DropReason> ::
              Repeat(reason, m) + (Repeat(reason, n) + tail) == Repeat(reason, m + n) + tail
  {
  }

  lemma MultisetOfParts<T>(swept: seq<T>, later: seq<T>, direct: seq<T>, x: seq<T>, y: seq<T>)
    requires multiset(direct) == multiset(swept) + multiset(later)
    ensures multiset(swept + (later + x + y)) == multiset(direct + x + y)
  {
  }

  // ---- Whole runs ----

  /** Every tick is followed, ticks apart, by a push at or after it. */
  ghost predicate Due<E>(h: seq<Action<E>>, t: I64) {
    h != [] && if h[0].Tick? then Due(h[1..], t) else h[0].Push? && t <= h[0].ts
  }

  ghost predicate Punctual<E>(h: seq<Action<E>>) {
    h == [] || (Punctual(h[1..]) && (h[0].Tick? ==> Due(h[1..], h[0].now)))
  }

  function WithoutTicks<E>(h: seq<Action<E>>): seq<Action<E>> {
    if h == [] then [] else (if h[0].Tick? then [] else [h[0]]) + WithoutTicks(h[1..])
  }

  ghost function RunOf<E>(steps: seq<Step<E>>, ps: seq<PartialMatch<E>>, h: seq<Action<E>>): (r: Effect<E>)
    requires |steps| > 0 && AllSound(steps, ps) && |ps| <= MAX_IN_FLIGHT
    ensures AllSound(steps, r.inFlight) && |r.inFlight| <= MAX_IN_FLIGHT
  {
    Exec(steps, ps, h, |h|)
  }

  lemma RunCons<E>(steps: seq<Step<E>>, ps: seq<PartialMatch<E>>, h: seq<Action<E>>)
    requires |steps| > 0 && AllSound(steps, ps) && |ps| <= MAX_IN_FLIGHT && h != []
    ensures var first := Transition(steps, ps, h[0]);
            RunOf(steps, ps, h) == Then(first, RunOf(steps, first.inFlight, h[1..]))
  {
    hide Transition;
    assert h == [h[0]] + h[1..];
    ExecConcat(steps, ps, [h[0]], h[1..], |h| - 1);
    ExecOne(steps, ps, h[0]);
  }

  /** A tick that a later push makes due can be left out of a run. */
  lemma {:induction false} DropOneTick<E>(steps: seq<Step<E>>, ps: seq<PartialMatch<E>>, t: I64, h: seq<Action<E>>)
    requires |steps| > 0 && AllSound(steps, ps) && |ps| <= MAX_IN_FLIGHT && Due(h, t)
    ensures var ticked := Transition(steps, ps, Tick(t));
            Same(Then(ticked, RunOf(steps, ticked.inFlight, h)), RunOf(steps, ps, h))
    decreases |h|
  {
    hide Transition, RunOf, Same;
    var a, ticked := h[0], Transition(steps, ps, Tick(t));
    RunCons(steps, ps, h);
    RunCons(steps, ticked.inFlight, h);
    var direct, later := Transition(steps, ps, a), Transition(steps, ticked.inFlight, a);
    ThenAssociative(ticked, later, RunOf(steps, later.inFlight, h[1..]));
    if NotBefore(a, t) {
      TickBefore(steps, ps, t, a);
      SameState(Then(ticked, later), direct);
      SameRest(Then(ticked, later), direct, RunOf(steps, direct.inFlight, h[1..]));
    } else {
      SwapTicks(steps, ps, t, a.now);
      var both := Then(direct, Transition(steps, direct.inFlight, Tick(t)));
      var rest := RunOf(steps, later.inFlight, h[1..]);
      SameState(Then(ticked, later), both);
      SameRest(Then(ticked, later), both, rest);
      DropOneTick(steps, direct.inFlight, t, h[1..]);
      var afterTick := Transition(steps, direct.inFlight, Tick(t));
      ThenAssociative(direct, afterTick, rest);
      SameAfter(direct, Then(afterTick, rest), RunOf(steps, direct.inFlight, h[1..]));
      SameTransitive(Then(Then(ticked, later), rest), Then(both, rest),
          Then(direct, RunOf(steps, direct.inFlight, h[1..])));
    }
  }

  lemma SameState<E>(x: Effect<E>, y: Effect<E>)
    requires Same(x, y)
    ensures x.inFlight == y.inFlight
  {
  }

  lemma SameRest<E>(x: Effect<E>, y: Effect<E>, rest: Effect<E>)
    requires Same(x, y)
    ensures Same(Then(x, rest), Then(y, rest))
  {
  }

  lemma SameAfter<E>(first: Effect<E>, x: Effect<E>, y: Effect<E>)
    requires Same(x, y)
    ensures Same(Then(first, x), Then(first, y))
  {
  }

  lemma SameTransitive<E>(x: Effect<E>, y: Effect<E>, z: Effect<E>)
    requires Same(x, y) && Same(y, z)
    ensures Same(x, z)
  {
  }

  /** Two ticks, the later first or the earlier first. */
  lemma SwapTicks<E>(steps: seq<Step<E>>, ps: seq<PartialMatch<E>>, t: I64, u: I64)
    requires |steps| > 0 && AllSound(steps, ps) && |ps| <= MAX_IN_FLIGHT && u <= t
    ensures var late, early := Transition(steps, ps, Tick(t)), Transition(steps, ps, Tick(u));
            Same(Then(late, Transition(steps, late.inFlight, Tick(u))),
                 Then(early, Transition(steps, early.inFlight, Tick(t))))
  {
    hide Transition, Same;
    var late := Transition(steps, ps, Tick(t));
    TickBefore(steps, ps, u, Tick(t));
    TickAgain(steps, ps, t, u);
    ThenNothing(late);
    SameSymmetric(Then(Transition(steps, ps, Tick(u)),
        Transition(steps, Transition(steps, ps, Tick(u)).inFlight, Tick(t))), late);
  }

  lemma SameSymmetric<E>(x: Effect<E>, y: Effect<E>)
    requires Same(x, y)
    ensures Same(y, x)
  {
  }

  /** A tick no later than one already made does nothing at all. */
  lemma TickAgain<E>(steps: seq<Step<E>>, ps: seq<PartialMatch<E>>, t: I64, u: I64)
    requires |steps| > 0 && AllSound(steps, ps) && |ps| <= MAX_IN_FLIGHT && u <= t
    ensures var after := Transition(steps, ps, Tick(t)).inFlight;
            Transition(steps, after, Tick(u)) == Effect(after, [], [])
  {
    hide Transition;
    var after := Staying(steps, ps, Tick(t));
    TickIsSweep(steps, ps, t);
    TickIsSweep(steps, after, u);
    NothingExpired(steps, ps, t, |ps|);
    NothingToSweep(steps, after, u, |after|);
    assert after[..|after|] == after;
  }

  lemma {:induction false} NothingExpired<E>(steps: seq<Step<E>>, ps: seq<PartialMatch<E>>, t: I64, n: nat)
    requires AllSound(steps, ps) && n <= |ps|
    ensures var os := Outcomes(steps, ps, Tick(t));
            forall k :: 0 <= k < |Stayers(os, 0, n)| ==> !Expired(Stayers(os, 0, n)[k], t)
  {
    hide OfferOutcome;
    if n > 0 { NothingExpired(steps, ps, t, n - 1); }
  }

  lemma {:induction false} NothingToSweep<E>(steps: seq<Step<E>>, ps: seq<PartialMatch<E>>, u: I64, n: nat)
    requires AllSound(steps, ps) && n <= |ps| && forall k :: 0 <= k < |ps| ==> !Expired(ps[k], u)
    ensures var os := Outcomes(steps, ps, Tick(u));
            Stayers(os, 0, n) == ps[..n] && Resolutions(os, 0, n) == [] && Lapses(os, 0, n) == 0
  {
    hide OfferOutcome;
    if n > 0 {
      NothingToSweep(steps, ps, u, n - 1);
      assert ps[..n] == ps[..n - 1] + [ps[n - 1]];
    }
  }

  /**
   Ticks inserted into a run, each followed by a push at or after it, change neither the final state nor the drops,
   and the emissions only by order.
   */
  lemma {:induction false} TicksChangeNothing<E>(steps: seq<Step<E>>, ps: seq<PartialMatch<E>>, h: seq<Action<E>>)
    requires |steps| > 0 && AllSound(steps, ps) && |ps| <= MAX_IN_FLIGHT && Punctual(h)
    ensures Same(RunOf(steps, ps, h), RunOf(steps, ps, WithoutTicks(h)))
    decreases |h|
  {
    hide Transition, RunOf, Same;
    if h == [] {
      SameReflexive(RunOf(steps, ps, h));
    } else {
      RunCons(steps, ps, h);
      var first := Transition(steps, ps, h[0]);
      if h[0].Tick? {
        assert WithoutTicks(h) == WithoutTicks(h[1..]);
        DropOneTick(steps, ps, h[0].now, h[1..]);
        TicksChangeNothing(steps, ps, h[1..]);
        SameTransitive(RunOf(steps, ps, h), RunOf(steps, ps, h[1..]), RunOf(steps, ps, WithoutTicks(h)));
      } else {
        assert WithoutTicks(h)[0] == h[0] && WithoutTicks(h)[1..] == WithoutTicks(h[1..]);
        RunCons(steps, ps, WithoutTicks(h));
        TicksChangeNothing(steps, first.inFlight, h[1..]);
        SameAfter(first, RunOf(steps, first.inFlight, h[1..]), RunOf(steps, first.inFlight, WithoutTicks(h[1..])));
      }
    }
  }

  lemma SameReflexive<E>(x: Effect<E>)
    ensures Same(x, x)
  {
  }

  /** Ticking twice at the same instant is ticking once, with or without a reorder buffer. */
  lemma TickIdempotent<E>(steps: seq<Step<E>>, m: Machine<E>, now: I64)
    requires |steps| > 0 && AllSound(steps, m.inFlight) && |m.inFlight| <= MAX_IN_FLIGHT
    ensures var once := OnTick(steps, m, now).machine;
            OnTick(steps, once, now) == Turn(once, [])
  {
    hide Transition, Exec, Reorder.DrainUntil;
    var once := OnTick(steps, m, now).machine;
    var pushes: seq<Action<E>> := if m.buf.None? then []
        else PushesOf(Reorder.Pairs(Reorder.OnClock(m.buf.value, now).released));
    var first := Exec(steps, m.inFlight, pushes, |pushes|);
    assert m.buf.None? ==> pushes + [Tick(now)] == [Tick(now)];
    ExecSnoc(steps, m.inFlight, pushes, Tick(now));
    ExecBounded(steps, m.inFlight, pushes);
    TickAgain(steps, first.inFlight, now, now);
    ExecNone(steps, m.inFlight, pushes);
    ExecOne(steps, once.inFlight, Tick(now));
    assert once.drops + [] == once.drops;
    if m.buf.Some? {
      ClockIdempotent(m.buf.value, now);
      assert PushesOf(Reorder.Pairs<E>([])) + [Tick(now)] == [Tick(now)];
    }
  }

  lemma ExecBounded<E>(steps: seq<Step<E>>, ps: seq<PartialMatch<E>>, h: seq<Action<E>>)
    requires |steps| > 0 && AllSound(steps, ps) && |ps| <= MAX_IN_FLIGHT
    ensures |Exec(steps, ps, h, |h|).inFlight| <= MAX_IN_FLIGHT
  {
  }

  lemma ClockIdempotent<E>(b: Reorder.Buffer<E>, now: I64)
    ensures var once := Reorder.OnClock(b, now).buf;
            Reorder.OnClock(once, now) == Reorder.Drained(once, [])
  {
  }

  // ---- Which ticks do something ----

  ghost predicate NoneExpired<E>(ps: seq<PartialMatch<E>>, now: I64) {
    forall k :: 0 <= k < |ps| ==> !Expired(ps[k], now)
  }

  lemma {:induction false} SomeoneLeaves<E>(os: seq<Outcome<E>>, k: nat, n: nat)
    requires k < n <= |os| && (os[k].Resolve? || os[k].Lapse?)
    ensures |Resolutions(os, 0, n)| + Lapses(os, 0, n) > 0
  {
    if k < n - 1 { SomeoneLeaves(os, k, n - 1); }
  }

  /** A sweep takes some partial out of flight if and only if some deadline is strictly below the clock. */
  lemma SweepActsIff<E>(steps: seq<Step<E>>, ps: seq<PartialMatch<E>>, now: I64)
    requires |steps| > 0 && AllSound(steps, ps) && |ps| <= MAX_IN_FLIGHT
    ensures Transition(steps, ps, Tick(now)) == Effect(ps, [], []) <==> NoneExpired(ps, now)
  {
    hide Transition, OfferOutcome;
    TickIsSweep(steps, ps, now);
    var os := Outcomes(steps, ps, Tick(now));
    if NoneExpired(ps, now) {
      NothingToSweep(steps, ps, now, |ps|);
      assert ps[..|ps|] == ps && Repeat(Deadline, 0) == [];
    } else {
      var k :| 0 <= k < |ps| && Expired(ps[k], now);
      assert os[k] == SweepOutcome(steps, ps[k], now);
      SomeoneLeaves(os, k, |os|);
    }
  }

  /** The runtime after a tick that only moves the buffer's clock. */
  function ClockMoved<E>(m: Machine<E>, now: I64): Machine<E> {
    match m.buf
    case None => m
    case Some(b) => m.(buf := Some(b.(maxSeen := Some(Reorder.Seen(b.maxSeen, now)))))
  }

  /** The tick emits nothing and changes nothing but the buffer's clock. */
  ghost predicate Idle<E>(steps: seq<Step<E>>, m: Machine<E>, now: I64)
    requires |steps| > 0 && AllSound(steps, m.inFlight)
  {
    OnTick(steps, m, now) == Turn(ClockMoved(m, now), [])
  }

  ghost predicate Releases<E>(m: Machine<E>, now: I64) {
    m.buf.Some? && Reorder.OnClock(m.buf.value, now).released != []
  }

  lemma NoReleaseIsSweep<E>(steps: seq<Step<E>>, m: Machine<E>, now: I64)
    requires |steps| > 0 && AllSound(steps, m.inFlight) && !Releases(m, now)
    ensures var e := Transition(steps, m.inFlight, Tick(now));
            OnTick(steps, m, now)
            == Turn(Machine(e.inFlight, m.drops + e.drops, ClockMoved(m, now).buf), e.emitted)
  {
    hide Transition;
    ExecOne(steps, m.inFlight, Tick(now));
    assert PushesOf(Reorder.Pairs<E>([])) + [Tick(now)] == [Tick(now)];
    if m.buf.Some? {
      var b, d := m.buf.value, Reorder.OnClock(m.buf.value, now);
      assert b.pending[0..] == b.pending && d.buf == b.(maxSeen := Some(Reorder.Seen(b.maxSeen, now)));
    }
  }

  lemma ReleaseShrinks<E>(steps: seq<Step<E>>, m: Machine<E>, now: I64)
    requires |steps| > 0 && AllSound(steps, m.inFlight) && Releases(m, now)
    ensures OnTick(steps, m, now).machine.buf != ClockMoved(m, now).buf
  {
    hide Exec;
    var b, d := m.buf.value, Reorder.OnClock(m.buf.value, now);
    assert |d.buf.pending| == |b.pending| - |d.released|;
  }

  /** A tick does something if and only if it releases an event or some deadline is strictly below it. */
  lemma TickActsIff<E>(steps: seq<Step<E>>, m: Machine<E>, now: I64)
    requires |steps| > 0 && AllSound(steps, m.inFlight) && |m.inFlight| <= MAX_IN_FLIGHT
    ensures Idle(steps, m, now) <==> NoneExpired(m.inFlight, now) && !Releases(m, now)
  {
    hide OnTick, Transition, NoneExpired, Releases;
    SweepActsIff(steps, m.inFlight, now);
    if Releases(m, now) {
      ReleaseShrinks(steps, m, now);
    } else {
      NoReleaseIsSweep(steps, m, now);
      var e := Transition(steps, m.inFlight, Tick(now));
      assert m.drops + e.drops == m.drops <==> e.drops == [] by {
        assert |m.drops + e.drops| == |m.drops| + |e.drops|;
        assert m.drops + [] == m.drops;
      }
    }
  }

  lemma {:induction false} EarliestIsLeast<E>(ps: seq<PartialMatch<E>>, n: nat)
    requires n <= |ps|
    ensures var d := EarliestDeadline(ps, n);
            && (d.Some? ==> exists k :: 0 <= k < n && ps[k].deadline == d)
            && forall k :: 0 <= k < n && ps[k].deadline.Some? ==> d.Some? && d.value <= ps[k].deadline.value
  {
    if n > 0 { EarliestIsLeast(ps, n - 1); }
  }

  lemma ExpiredByEarliest<E>(ps: seq<PartialMatch<E>>, now: I64)
    ensures var d := EarliestDeadline(ps, |ps|); NoneExpired(ps, now) <==> d.None? || now <= d.value
  {
    EarliestIsLeast(ps, |ps|);
  }

  /**
   What the instant handed to drivers is worth. Before it a tick is idle, after it a tick does something; at it, only
   when it is the buffer's release clock: a match deadline fires strictly after itself. The buffer's part needs the
   arithmetic of its release clock to fit, which is exactly when that clock is right.
   */
  lemma WakeLaw<E>(steps: seq<Step<E>>, m: Machine<E>, now: I64)
    requires |steps| > 0 && AllSound(steps, m.inFlight) && |m.inFlight| <= MAX_IN_FLIGHT
    requires m.buf.Some? ==> 0 <= m.buf.value.lateness && Reorder.ClockFits(m.buf.value)
    ensures var wake := Wake(m);
            Idle(steps, m, now)
            <==> wake.None? || now < wake.value
                 || (now == wake.value && (m.buf.None? || Reorder.ReleaseClock(m.buf.value) != wake))
  {
    TickActsIff(steps, m, now);
    ExpiredByEarliest(m.inFlight, now);
    hide OnTick, Idle, NoneExpired, EarliestDeadline, Reorder.OnClock;
    if m.buf.Some? {
      Reorder.ReleasesFromClock(m.buf.value);
      Reorder.ReleasesIff(m.buf.value, now);
    }
  }

  // ---- When a tick is the same as an event that matches nothing ----

  /** The event satisfies neither the awaited step nor its guard. */
  ghost predicate Ignores<E>(steps: seq<Step<E>>, pm: PartialMatch<E>, event: E)
    requires Sound(steps, pm)
  {
    !Matches(steps[pm.nextStep], event, pm.captures)
    && (!steps[pm.nextStep].isNegative ==> !Guarded(steps[pm.nextStep], event, pm.captures))
  }

  /** A step that an ignored event leaves alone: an absence, or an eventual step with no satisfied repetition to end. */
  ghost predicate Patient<E>(step: Step<E>, pm: PartialMatch<E>) {
    || step.isNegative
    || (step.contiguity == Eventually && !(step.repeat.Some? && pm.repeatCount >= step.repeat.value.min))
  }

  /**
   An event that a partial ignores acts on it exactly as a tick does if and only if its deadline has passed or its
   step is patient. The engine's remark that a tick is a no-op event holds for eventual, unrepeated patterns only.
   */
  lemma {:induction false} IgnoredEventIsTick<E>(steps: seq<Step<E>>, pm: PartialMatch<E>, event: E, ts: I64)
    requires Sound(steps, pm) && Ignores(steps, pm, event)
    ensures React(steps, pm, Push(event, ts)) == React(steps, pm, Tick(ts))
       <==> Expired(pm, ts) || Patient(steps[pm.nextStep], pm)
  {
    if !Expired(pm, ts) && !Patient(steps[pm.nextStep], pm) && steps[pm.nextStep].repeat.Some?
       && pm.repeatCount >= steps[pm.nextStep].repeat.value.min && pm.nextStep + 1 < |steps| {
      OfferAdvances(steps, Advanced(steps, pm, ts), event, ts);
    }
  }

  lemma {:induction false} OfferAdvances<E>(steps: seq<Step<E>>, pm: PartialMatch<E>, event: E, ts: I64)
    requires Sound(steps, pm)
    ensures var o := OfferOutcome(steps, pm, event, ts); o.Stay? ==> o.pm.nextStep >= pm.nextStep
    decreases |steps| - pm.nextStep
  {
    if pm.nextStep + 1 < |steps| { OfferAdvances(steps, Advanced(steps, pm, ts), event, ts); }
  }

  /** Partials only leave: what the push keeps, the tick keeps. If both keep the same list, they kept the same each. */
  lemma {:induction false} SameStayers<E>(pushed: seq<Outcome<E>>, ticked: seq<Outcome<E>>, n: nat)
    requires n <= |pushed| == |ticked| && forall k :: 0 <= k < n ==> pushed[k].Stay? ==> ticked[k].Stay?
    ensures |Stayers(pushed, 0, n)| <= |Stayers(ticked, 0, n)|
    ensures Stayers(pushed, 0, n) == Stayers(ticked, 0, n) ==>
              forall k :: 0 <= k < n && ticked[k].Stay? ==> pushed[k] == ticked[k]
  {
    if n > 0 {
      SameStayers(pushed, ticked, n - 1);
      var p, t := Stayers(pushed, 0, n - 1), Stayers(ticked, 0, n - 1);
      if Stayers(pushed, 0, n) == Stayers(ticked, 0, n) {
        if ticked[n - 1].Stay? {
          assert pushed[n - 1].Stay?;
          assert (p + [pushed[n - 1].pm])[|p|] == (t + [ticked[n - 1].pm])[|t|];
          assert p == (p + [pushed[n - 1].pm])[..|p|] && t == (t + [ticked[n - 1].pm])[..|t|];
        } else {
          assert !pushed[n - 1].Stay? && p + [] == p && t + [] == t;
        }
        assert p == t;
      }
    }
  }

  lemma TickKeepsUnexpired<E>(steps: seq<Step<E>>, pm: PartialMatch<E>, event: E, ts: I64)
    requires Sound(steps, pm)
    ensures React(steps, pm, Push(event, ts)).Stay? ==> React(steps, pm, Tick(ts)).Stay?
    ensures Expired(pm, ts) ==> React(steps, pm, Push(event, ts)) == React(steps, pm, Tick(ts))
    ensures !Expired(pm, ts) ==> React(steps, pm, Tick(ts)).Stay?
  {
    hide OfferOutcome;
  }

  /**
   For the whole machine: an event that opens nothing and that every unexpired partial ignores is a tick if and only if
   every one of them is at a patient step.
   */
  lemma IgnoredPushIsTick<E>(steps: seq<Step<E>>, ps: seq<PartialMatch<E>>, event: E, ts: I64)
    requires |steps| > 0 && AllSound(steps, ps) && |ps| <= MAX_IN_FLIGHT && !Opens(steps, Push(event, ts))
    requires forall k :: 0 <= k < |ps| ==> Expired(ps[k], ts) || Ignores(steps, ps[k], event)
    ensures Transition(steps, ps, Push(event, ts)) == Transition(steps, ps, Tick(ts))
       <==> forall k :: 0 <= k < |ps| ==> Expired(ps[k], ts) || Patient(steps[ps[k].nextStep], ps[k])
  {
    hide React, OfferOutcome, Ignores, Patient, Expired;
    var pushed, ticked := Outcomes(steps, ps, Push(event, ts)), Outcomes(steps, ps, Tick(ts));
    var n := |ps|;
    forall k | 0 <= k < n
      ensures pushed[k].Stay? ==> ticked[k].Stay?
      ensures Expired(ps[k], ts) ==> pushed[k] == ticked[k]
      ensures !Expired(ps[k], ts) ==>
                ticked[k].Stay? && (pushed[k] == ticked[k] <==> Patient(steps[ps[k].nextStep], ps[k]))
    {
      TickKeepsUnexpired(steps, ps[k], event, ts);
      if !Expired(ps[k], ts) { IgnoredEventIsTick(steps, ps[k], event, ts); }
    }
    SameStayers(pushed, ticked, n);
    hide Stayers, Resolutions, Finishes, Lapses;
    if Transition(steps, ps, Push(event, ts)) == Transition(steps, ps, Tick(ts)) {
      assert Stayers(pushed, 0, n) + [] == Stayers(pushed, 0, n) && Stayers(ticked, 0, n) + [] == Stayers(ticked, 0, n);
    } else {
      assert pushed != ticked;
    }
  }
}

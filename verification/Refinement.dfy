/**
 The engine's meaning, one opening event at a time. `Solo` follows the partial opened by one action through the
 rest of a history on its own; the theorem is that the machine holding up to 1024 partials at once is exactly
 these solo simulations side by side, with eviction included.
 */
module Refinement {
  import opened Common
  import opened Matching

  /** `Gone(outcome, at)`: action number `at` took the partial out of flight in this way. */
  datatype Fate<E> = Absent | Live(pm: PartialMatch<E>) | Gone(outcome: Outcome<E>, at: nat)

  ghost predicate SoundFate<E>(steps: seq<Step<E>>, f: Fate<E>) {
    f.Live? ==> Sound(steps, f.pm)
  }

  /** The partial opened by action `i`, after the first `n` actions of `h`, simulated alone. */
  function Solo<E>(steps: seq<Step<E>>, h: seq<Action<E>>, i: nat, n: nat): (f: Fate<E>)
    requires |steps| > 0 && i < n <= |h|
    ensures SoundFate(steps, f) && (f.Gone? ==> i < f.at < n)
    decreases n
  {
    if n == i + 1 then
      if Opens(steps, h[i]) && |steps| > 1 then Live(Fresh(steps, h[i].event, h[i].ts)) else Absent
    else
      match Solo(steps, h, i, n - 1)
      case Live(pm) =>
        var o := React(steps, pm, h[n - 1]);
        if o.Stay? then Live(o.pm) else Gone(o, n - 1)
      case other => other
  }

  /** How many of the partials opened by actions lo..hi are live after `n` actions. */
  function LiveCount<E>(steps: seq<Step<E>>, h: seq<Action<E>>, lo: nat, hi: nat, n: nat): nat
    requires |steps| > 0 && lo <= hi <= n <= |h|
    decreases hi
  {
    if lo == hi then 0
    else LiveCount(steps, h, lo, hi - 1, n) + (if Solo(steps, h, hi - 1, n).Live? then 1 else 0)
  }

  /** Live partials younger than the one opened by action `i`, after `n` actions. */
  function Younger<E>(steps: seq<Step<E>>, h: seq<Action<E>>, i: nat, n: nat): nat
    requires |steps| > 0 && i < n <= |h|
  {
    LiveCount(steps, h, i + 1, n, n)
  }

  /** At no time up to `n` did 1024 younger live partials crowd out the one opened by action `i`. */
  ghost predicate Roomy<E>(steps: seq<Step<E>>, h: seq<Action<E>>, i: nat, n: nat)
    requires |steps| > 0 && n <= |h|
  {
    forall m :: i < m <= n ==> Younger(steps, h, i, m) < MAX_IN_FLIGHT
  }

  /** The partials opened by actions 0..k that are live after `n` actions and uncrowded through `e`, oldest first. */
  ghost function Survivors<E>(steps: seq<Step<E>>, h: seq<Action<E>>, k: nat, n: nat, e: nat): seq<PartialMatch<E>>
    requires |steps| > 0 && k <= n <= |h| && e <= |h|
    decreases k
  {
    if k == 0 then []
    else
      Survivors(steps, h, k - 1, n, e)
      + (if Solo(steps, h, k - 1, n).Live? && Roomy(steps, h, k - 1, e) then [Solo(steps, h, k - 1, n).pm] else [])
  }

  /** What action `n` takes out of flight by a sweep or flush, among openings 0..k, oldest first. */
  ghost function SoloResolved<E>(steps: seq<Step<E>>, h: seq<Action<E>>, k: nat, n: nat): seq<seq<Capture<E>>>
    requires |steps| > 0 && k <= n < |h|
    decreases k
  {
    if k == 0 then []
    else
      var f := Solo(steps, h, k - 1, n + 1);
      SoloResolved(steps, h, k - 1, n)
      + (if f.Gone? && f.at == n && f.outcome.Resolve? && Roomy(steps, h, k - 1, n) then [f.outcome.resolved] else [])
  }

  ghost function SoloFinished<E>(steps: seq<Step<E>>, h: seq<Action<E>>, k: nat, n: nat): seq<seq<Capture<E>>>
    requires |steps| > 0 && k <= n < |h|
    decreases k
  {
    if k == 0 then []
    else
      var f := Solo(steps, h, k - 1, n + 1);
      SoloFinished(steps, h, k - 1, n)
      + (if f.Gone? && f.at == n && f.outcome.Finish? && Roomy(steps, h, k - 1, n) then [f.outcome.finished] else [])
  }

  /** The machine's in-flight list after `n` actions, from empty. */
  function InFlight<E>(steps: seq<Step<E>>, h: seq<Action<E>>, n: nat): (r: seq<PartialMatch<E>>)
    requires |steps| > 0 && n <= |h|
    ensures AllSound(steps, r) && |r| <= MAX_IN_FLIGHT
  {
    Exec(steps, [], h, n).inFlight
  }

  /** What the machine emits on action `n`. */
  function Emitted<E>(steps: seq<Step<E>>, h: seq<Action<E>>, n: nat): seq<seq<Capture<E>>>
    requires |steps| > 0 && n < |h|
  {
    Transition(steps, InFlight(steps, h, n), h[n]).emitted
  }

  /**
   Refinement: after every prefix the in-flight list is the surviving solo simulations in opening order, and every
   action emits the survivors it resolves oldest first, then those it finishes newest first, then a one-step match.
   */
  lemma {:induction false} MachineIsSolos<E>(steps: seq<Step<E>>, h: seq<Action<E>>, n: nat)
    requires |steps| > 0 && n <= |h|
    ensures InFlight(steps, h, n) == Survivors(steps, h, n, n, n)
  {
    hide React, Transition, Stayers, Resolutions, Finishes;
    if n > 0 {
      MachineIsSolos(steps, h, n - 1);
      var ps, a := InFlight(steps, h, n - 1), h[n - 1];
      var os := Outcomes(steps, ps, a);
      SurvivorsStep(steps, h, n - 1, n - 1);
      var grown := Survivors(steps, h, n, n, n - 1);
      OpeningIsFresh(steps, h, n);
      TransitionIs(steps, ps, a);
      assert grown == Stayers(os, 0, |os|) + Opening(steps, a);
      EvictionIsCrowding(steps, h, n, n);
    }
  }

  lemma TransitionIs<E>(steps: seq<Step<E>>, ps: seq<PartialMatch<E>>, a: Action<E>)
    requires |steps| > 0 && AllSound(steps, ps)
    ensures var os := Outcomes(steps, ps, a);
            && Transition(steps, ps, a).inFlight == Evict(Stayers(os, 0, |os|) + Opening(steps, a))
            && Transition(steps, ps, a).emitted
               == Resolutions(os, 0, |os|) + Reverse(Finishes(os, 0, |os|)) + Immediate(steps, a)
  {
    hide React;
  }

  lemma MachineEmitsSolos<E>(steps: seq<Step<E>>, h: seq<Action<E>>, n: nat)
    requires |steps| > 0 && n < |h|
    ensures Emitted(steps, h, n)
         == SoloResolved(steps, h, n, n) + Reverse(SoloFinished(steps, h, n, n)) + Immediate(steps, h[n])
  {
    hide React, Transition;
    MachineIsSolos(steps, h, n);
    SurvivorsStep(steps, h, n, n);
    TransitionIs(steps, InFlight(steps, h, n), h[n]);
  }

  lemma {:induction false} SurvivorsPrefix<E>(steps: seq<Step<E>>, h: seq<Action<E>>, k: nat, hi: nat, n: nat, e: nat)
    requires |steps| > 0 && k <= hi <= n <= |h| && e <= |h|
    ensures Survivors(steps, h, k, n, e) <= Survivors(steps, h, hi, n, e)
  {
    hide Solo, Roomy;
    if k < hi { SurvivorsPrefix(steps, h, k, hi - 1, n, e); }
  }

  lemma SurvivorAt<E>(steps: seq<Step<E>>, h: seq<Action<E>>, k: nat, n: nat)
    requires |steps| > 0 && k < n <= |h|
    ensures var all, m, f := Survivors(steps, h, n, n, n), |Survivors(steps, h, k, n, n)|, Solo(steps, h, k, n);
            && |Survivors(steps, h, k + 1, n, n)| <= |all|
            && (f.Live? && Roomy(steps, h, k, n) ==> m < |all| && all[m] == f.pm)
  {
    hide Solo, Roomy;
    SurvivorsPrefix(steps, h, k + 1, n, n, n);
  }

  /** One more action in a solo simulation. */
  lemma SoloNext<E>(steps: seq<Step<E>>, h: seq<Action<E>>, i: nat, n: nat)
    requires |steps| > 0 && i < n < |h|
    ensures var f, next := Solo(steps, h, i, n), Solo(steps, h, i, n + 1);
            if f.Live? then
              var o := React(steps, f.pm, h[n]);
              next == if o.Stay? then Live(o.pm) else Gone(o, n)
            else
              next == f && (next.Gone? ==> next.at < n)
  {
    hide React;
  }

  /** Acting on the survivors is acting on each solo simulation: the openings 0..k. */
  ghost predicate StepsAlike<E>(steps: seq<Step<E>>, h: seq<Action<E>>, k: nat, n: nat)
    requires |steps| > 0 && k <= n < |h| && AllSound(steps, Survivors(steps, h, n, n, n))
  {
    var all := Survivors(steps, h, n, n, n);
    var os, m := Outcomes(steps, all, h[n]), |Survivors(steps, h, k, n, n)|;
    && m <= |all|
    && Stayers(os, 0, m) == Survivors(steps, h, k, n + 1, n)
    && Resolutions(os, 0, m) == SoloResolved(steps, h, k, n)
    && Finishes(os, 0, m) == SoloFinished(steps, h, k, n)
  }

  lemma OneMoreSteps<E>(steps: seq<Step<E>>, h: seq<Action<E>>, k: nat, n: nat)
    requires |steps| > 0 && k < n < |h| && AllSound(steps, Survivors(steps, h, n, n, n)) && StepsAlike(steps, h, k, n)
    ensures StepsAlike(steps, h, k + 1, n)
  {
    hide React, Roomy, Solo;
    SurvivorAt(steps, h, k, n);
    SoloNext(steps, h, k, n);
    if Solo(steps, h, k, n).Live? && Roomy(steps, h, k, n) {
      var os, m := Outcomes(steps, Survivors(steps, h, n, n, n), h[n]), |Survivors(steps, h, k, n, n)|;
      assert os[m] == React(steps, Solo(steps, h, k, n).pm, h[n]);
    }
  }

  lemma {:induction false} SurvivorsStep<E>(steps: seq<Step<E>>, h: seq<Action<E>>, k: nat, n: nat)
    requires |steps| > 0 && k <= n < |h| && AllSound(steps, Survivors(steps, h, n, n, n))
    ensures StepsAlike(steps, h, k, n)
  {
    if k > 0 {
      SurvivorsStep(steps, h, k - 1, n);
      OneMoreSteps(steps, h, k - 1, n);
    }
  }

  lemma OpeningIsFresh<E>(steps: seq<Step<E>>, h: seq<Action<E>>, n: nat)
    requires |steps| > 0 && 0 < n <= |h|
    ensures Survivors(steps, h, n, n, n - 1) == Survivors(steps, h, n - 1, n, n - 1) + Opening(steps, h[n - 1])
  {
    assert Roomy(steps, h, n - 1, n - 1);
  }

  // ---- Eviction ----

  lemma {:induction false} LiveCountMonotone<E>(steps: seq<Step<E>>, h: seq<Action<E>>, lo: nat, mid: nat, hi: nat,
        n: nat)
    requires |steps| > 0 && lo <= mid <= hi <= n <= |h|
    ensures LiveCount(steps, h, mid, hi, n) <= LiveCount(steps, h, lo, hi, n)
  {
    hide Solo;
    if mid < hi { LiveCountMonotone(steps, h, lo, mid, hi - 1, n); }
  }

  lemma RoomyUpward<E>(steps: seq<Step<E>>, h: seq<Action<E>>, i: nat, j: nat, n: nat)
    requires |steps| > 0 && i <= j && n <= |h| && Roomy(steps, h, i, n)
    ensures Roomy(steps, h, j, n)
  {
    hide LiveCount;
    forall m | j < m <= n ensures Younger(steps, h, j, m) < MAX_IN_FLIGHT {
      LiveCountMonotone(steps, h, i + 1, j + 1, m, m);
      assert Younger(steps, h, i, m) < MAX_IN_FLIGHT;
    }
  }

  /** From an uncrowded opening on, surviving is being live. */
  lemma {:induction false} SurvivorsAfter<E>(steps: seq<Step<E>>, h: seq<Action<E>>, i: nat, hi: nat, n: nat, e: nat)
    requires |steps| > 0 && i < hi <= n <= |h| && e <= |h| && Roomy(steps, h, i, e)
    ensures |Survivors(steps, h, hi, n, e)| == |Survivors(steps, h, i + 1, n, e)| + LiveCount(steps, h, i + 1, hi, n)
  {
    hide Solo, Roomy;
    if i + 1 < hi {
      SurvivorsAfter(steps, h, i, hi - 1, n, e);
      RoomyUpward(steps, h, i, hi - 1, e);
    }
  }

  /** Dropping the crowded-out partials at time `n` is dropping the oldest one when there are more than 1024. */
  lemma {:induction false} EvictionIsCrowding<E>(steps: seq<Step<E>>, h: seq<Action<E>>, k: nat, n: nat)
    requires |steps| > 0 && k <= n <= |h| && n > 0
    requires |Survivors(steps, h, n, n, n - 1)| <= MAX_IN_FLIGHT + 1
    ensures var all, some := Survivors(steps, h, n, n, n - 1), Survivors(steps, h, k, n, n - 1);
            Survivors(steps, h, k, n, n) == if |all| > MAX_IN_FLIGHT && |some| > 0 then some[1..] else some
  {
    hide Solo, Roomy, LiveCount;
    if k > 0 {
      EvictionIsCrowding(steps, h, k - 1, n);
      var i := k - 1;
      RoomyOneMore(steps, h, i, n);
      if Solo(steps, h, i, n).Live? && Roomy(steps, h, i, n - 1) {
        SurvivorsAfter(steps, h, i, n, n, n - 1);
        var all, some := Survivors(steps, h, n, n, n - 1), Survivors(steps, h, i, n, n - 1);
        assert |all| == |some| + 1 + Younger(steps, h, i, n);
      }
    }
  }

  lemma RoomyOneMore<E>(steps: seq<Step<E>>, h: seq<Action<E>>, i: nat, n: nat)
    requires |steps| > 0 && i < n <= |h|
    ensures Roomy(steps, h, i, n) <==> Roomy(steps, h, i, n - 1) && Younger(steps, h, i, n) < MAX_IN_FLIGHT
  {
    hide Younger;
  }

  // ---- When the bound is never reached ----

  ghost predicate NeverFull<E>(steps: seq<Step<E>>, h: seq<Action<E>>)
    requires |steps| > 0
  {
    forall m :: 0 <= m <= |h| ==> LiveCount(steps, h, 0, m, m) <= MAX_IN_FLIGHT
  }

  lemma {:induction false} LiveBefore<E>(steps: seq<Step<E>>, h: seq<Action<E>>, i: nat, m: nat, n: nat)
    requires |steps| > 0 && i < m <= n <= |h| && Solo(steps, h, i, n).Live?
    ensures Solo(steps, h, i, m).Live?
  {
    hide React;
    if m < n { LiveBefore(steps, h, i, m, n - 1); }
  }

  lemma {:induction false} LiveCountSplit<E>(steps: seq<Step<E>>, h: seq<Action<E>>, lo: nat, mid: nat, hi: nat, n: nat)
    requires |steps| > 0 && lo <= mid <= hi <= n <= |h|
    ensures LiveCount(steps, h, lo, hi, n) == LiveCount(steps, h, lo, mid, n) + LiveCount(steps, h, mid, hi, n)
  {
    hide Solo;
    if mid < hi { LiveCountSplit(steps, h, lo, mid, hi - 1, n); }
  }

  /** With room for everyone, in flight is exactly live. */
  lemma NeverCrowded<E>(steps: seq<Step<E>>, h: seq<Action<E>>, i: nat, n: nat)
    requires |steps| > 0 && i < n <= |h| && NeverFull(steps, h) && Solo(steps, h, i, n).Live?
    ensures Roomy(steps, h, i, n)
  {
    hide Solo;
    forall m | i < m <= n ensures Younger(steps, h, i, m) < MAX_IN_FLIGHT {
      LiveBefore(steps, h, i, m, n);
      LiveCountSplit(steps, h, 0, i + 1, m, m);
      assert LiveCount(steps, h, 0, m, m) <= MAX_IN_FLIGHT;
    }
  }
}

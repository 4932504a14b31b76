/**
 Which partials are dropped, when, and with which notice: a deadline drop for each uncrowded opening that waits at a
 positive step when the clock leaves its window, and an overflow drop exactly when an opening is newly crowded out.
 */
module Drops {
  import opened Common
  import opened Matching
  import opened Refinement
  import opened GenuineRuns

  ghost predicate LapsesAt<E>(steps: seq<Step<E>>, h: seq<Action<E>>, i: nat, n: nat)
    requires |steps| > 0 && i < n < |h|
  {
    var f := Solo(steps, h, i, n + 1);
    f.Gone? && f.at == n && f.outcome.Lapse?
  }

  /** How many of the openings 0..k, uncrowded, action `n` drops for their deadline. */
  ghost function SoloLapsed<E>(steps: seq<Step<E>>, h: seq<Action<E>>, k: nat, n: nat): nat
    requires |steps| > 0 && k <= n < |h|
  {
    if k == 0 then 0
    else SoloLapsed(steps, h, k - 1, n) + (if LapsesAt(steps, h, k - 1, n) && Roomy(steps, h, k - 1, n) then 1 else 0)
  }

  /** Action `n` crowds out the opening `i`, uncrowded until then. */
  ghost predicate CrowdedAt<E>(steps: seq<Step<E>>, h: seq<Action<E>>, i: nat, n: nat)
    requires |steps| > 0 && i <= n < |h|
  {
    Solo(steps, h, i, n + 1).Live? && Roomy(steps, h, i, n) && !Roomy(steps, h, i, n + 1)
  }

  lemma {:induction false} LapsesAlike<E>(steps: seq<Step<E>>, h: seq<Action<E>>, k: nat, n: nat)
    requires |steps| > 0 && k <= n < |h| && AllSound(steps, Survivors(steps, h, n, n, n))
    ensures var all := Survivors(steps, h, n, n, n);
            var os, m := Outcomes(steps, all, h[n]), |Survivors(steps, h, k, n, n)|;
            m <= |all| && Lapses(os, 0, m) == SoloLapsed(steps, h, k, n)
  {
    hide React, Roomy, Solo;
    if k > 0 {
      LapsesAlike(steps, h, k - 1, n);
      SurvivorAt(steps, h, k - 1, n);
      SoloNext(steps, h, k - 1, n);
      if Solo(steps, h, k - 1, n).Live? && Roomy(steps, h, k - 1, n) {
        var os, m := Outcomes(steps, Survivors(steps, h, n, n, n), h[n]), |Survivors(steps, h, k - 1, n, n)|;
        assert os[m] == React(steps, Solo(steps, h, k - 1, n).pm, h[n]);
      }
    }
  }

  /** Among openings 0..k, the survivors lose someone at `n` exactly when someone is crowded out. */
  lemma {:induction false} LosesWhenCrowded<E>(steps: seq<Step<E>>, h: seq<Action<E>>, k: nat, n: nat)
    requires |steps| > 0 && k <= n + 1 <= |h|
    ensures var before, after := Survivors(steps, h, k, n + 1, n), Survivors(steps, h, k, n + 1, n + 1);
            && |after| <= |before|
            && (|after| < |before| <==> exists i :: 0 <= i < k && CrowdedAt(steps, h, i, n))
  {
    hide Solo, Roomy, Younger;
    if k > 0 {
      LosesWhenCrowded(steps, h, k - 1, n);
      RoomyOneMore(steps, h, k - 1, n + 1);
      assert CrowdedAt(steps, h, k - 1, n) || !CrowdedAt(steps, h, k - 1, n);
    }
  }

  /**
   The notices of any action, from the solo simulations: one deadline notice per uncrowded opening it lapses, then an
   overflow notice if and only if it crowds one out.
   */
  lemma MachineDropsSolos<E>(steps: seq<Step<E>>, h: seq<Action<E>>, n: nat)
    requires |steps| > 0 && n < |h|
    ensures Transition(steps, InFlight(steps, h, n), h[n]).drops
         == Repeat(Deadline, SoloLapsed(steps, h, n, n))
            + (if exists i :: 0 <= i <= n && CrowdedAt(steps, h, i, n) then [MaxInFlight] else [])
  {
    hide React, Stayers, Resolutions, Finishes, Lapses, Solo, Roomy;
    MachineIsSolos(steps, h, n);
    MachineIsSolos(steps, h, n + 1);
    LapsesAlike(steps, h, n, n);
    SurvivorsStep(steps, h, n, n);
    OpeningIsFresh(steps, h, n + 1);
    LosesWhenCrowded(steps, h, n + 1, n);
    var ps, a := InFlight(steps, h, n), h[n];
    var os := Outcomes(steps, ps, a);
    var grown := Survivors(steps, h, n + 1, n + 1, n);
    assert grown == Stayers(os, 0, |os|) + Opening(steps, a);
    assert |grown| <= MAX_IN_FLIGHT + 1;
    EvictionIsCrowding(steps, h, n + 1, n + 1);
    assert |Survivors(steps, h, n + 1, n + 1, n + 1)| < |grown| <==> |grown| > MAX_IN_FLIGHT;
  }

  /**
   When an opening lapses: it waits at a positive step, and the clock read by action `n` is outside that step's window,
   which opened with the action that entered it.
   */
  lemma LapsesExactly<E>(steps: seq<Step<E>>, h: seq<Action<E>>, i: nat, n: nat) returns (r: Run)
    requires WellFormed(steps) && Inputs(h) && i < n < |h| && Solo(steps, h, i, n).Live?
    ensures var pm := Solo(steps, h, i, n).pm;
            && Explains(steps, h, i, n, pm, r)
            && (LapsesAt(steps, h, i, n)
                <==> !steps[pm.nextStep].isNegative
                     && !InTime(steps[pm.nextStep], h[r.stages[pm.nextStep].entry].ts, h[n]))
  {
    var pm := Solo(steps, h, i, n).pm;
    r := LiveIsExplained(steps, h, i, n);
    if ClockOf(h[n]).Some? { OpenDeadline(steps, h, i, n, pm, r, h[n]); }
    hide Explains, OfferOutcome, Matches;
  }
}

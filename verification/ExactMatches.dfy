/**
 The converse of `GenuineRuns`: every genuine run of an opening is what the matcher makes of it. Together, the machine
 emits exactly the genuine runs of the openings that were not crowded out.
 */
module ExactMatches {
  import opened Common
  import opened Matching
  import opened Refinement
  import opened GenuineRuns
  import Absence

  /** The partial that a run describes just before its current step is shown action `m`. */
  ghost predicate Follows<E>(steps: seq<Step<E>>, h: seq<Action<E>>, caps: seq<Capture<E>>, r: Run, m: nat,
        pm: PartialMatch<E>) {
    var s, c := pm.nextStep, |pm.captures|;
    && 1 <= s < |steps| && s < |r.stages| && c <= |caps| == |r.pos| && pm.captures == caps[..c]
    && (c > 0 ==> r.pos[c - 1] < m) && (c < |caps| ==> m <= r.pos[c])
    && r.stages[s].start <= c && r.stages[s].from <= m
    && r.stages[s].entry < |h| && h[r.stages[s].entry].Push?
    && (s + 1 < |r.stages| ==> c <= r.stages[s + 1].start && m <= r.stages[s + 1].entry)
    && pm.repeatCount == (if steps[s].repeat.Some? then c - r.stages[s].start else 0)
    && pm.deadline == DeadlineFor(steps, s, h[r.stages[s].entry].ts)
  }

  /** Where the block of step `s` ends. */
  function BlockEnd<E>(caps: seq<Capture<E>>, r: Run, s: nat): nat {
    if s + 1 < |r.stages| then r.stages[s + 1].start else |caps|
  }

  /** What a genuine run says of one of its steps, completed or left open. */
  ghost predicate Taken<E>(steps: seq<Step<E>>, h: seq<Action<E>>, n: nat, caps: seq<Capture<E>>, r: Run, s: nat) {
    && s < |steps| && s < |r.stages| && n < |h| && BlockEnd(caps, r, s) <= |caps| && r.stages[s].entry < |h|
    && if s + 1 < |r.stages| then Done(steps, h, caps, r, s)
       else StageOk(steps, h, caps, r, s, |caps|, n, false) && BlockOpen(steps[s], |caps| - r.stages[s].start)
  }

  lemma StepTaken<E>(steps: seq<Step<E>>, h: seq<Action<E>>, i: nat, n: nat, caps: seq<Capture<E>>, r: Run, s: nat)
    requires Genuine(steps, h, i, n, caps, r) && 1 <= s < |steps| && s < |r.stages|
    ensures Taken(steps, h, n, caps, r, s)
  {
    hide StageOk;
    assert Entered(h, r, s);
    if s + 1 < |r.stages| { assert Done(steps, h, caps, r, s); }
  }

  /** Stages are entered in order, a later one at or after the first action an earlier one was shown. */
  lemma {:induction false} EntriesGrow<E>(steps: seq<Step<E>>, h: seq<Action<E>>, i: nat, caps: seq<Capture<E>>, r: Run,
        s: nat, t: nat)
    requires WellFormed(steps) && Trace(steps, h, i, caps, r) && 1 <= s < t < |r.stages|
    ensures r.stages[s].from <= r.stages[t].entry && r.stages[s].entry <= r.stages[s].from
    decreases t
  {
    if s + 1 < t { EntriesGrow(steps, h, i, caps, r, s, t - 1); }
    var k := r.stages[t].start - 1;
    assert Entered(h, r, t) && Entered(h, r, t - 1) && Entered(h, r, s);
    assert Done(steps, h, caps, r, t - 1);
    assert StepWellFormed(steps, t - 1);
    assert CaptureOk(steps, h, caps, r, t - 1, k, r.stages[t].entry + 1);
  }

  /** No stage of a genuine run is entered after its end. */
  lemma EnteredByEnd<E>(steps: seq<Step<E>>, h: seq<Action<E>>, i: nat, n: nat, caps: seq<Capture<E>>, r: Run, s: nat)
    requires WellFormed(steps) && Genuine(steps, h, i, n, caps, r) && 1 <= s < |r.stages|
    ensures r.stages[s].entry <= n && (OpenEnd(steps, h, n, caps, r) ==> r.stages[s].entry < n)
  {
    hide StageOk;
    if s + 1 < |r.stages| { EntriesGrow(steps, h, i, caps, r, s, |r.stages| - 1); }
  }

  /** What `Follows` says of the step and its block once action `m` has been dealt with. */
  ghost predicate AtBlock<E>(steps: seq<Step<E>>, h: seq<Action<E>>, caps: seq<Capture<E>>, r: Run, m: nat,
        pm: PartialMatch<E>) {
    var s, c := pm.nextStep, |pm.captures|;
    && 1 <= s < |steps| && s < |r.stages| && c <= |caps| == |r.pos| && pm.captures == caps[..c]
    && r.stages[s].start <= c <= BlockEnd(caps, r, s) <= |caps| && r.stages[s].from <= m
    && (c > 0 ==> r.pos[c - 1] <= m) && (c < BlockEnd(caps, r, s) ==> m < r.pos[c])
  }

  /** The current step is left at action `m`. */
  ghost predicate LeftAt(r: Run, s: nat, m: nat) {
    s + 1 < |r.stages| && r.stages[s + 1].entry == m
  }

  /** The next capture is action `m`: the step takes it, and is left by it when the block has no room for more. */
  lemma TakesCapture<E>(steps: seq<Step<E>>, h: seq<Action<E>>, i: nat, n: nat, caps: seq<Capture<E>>, r: Run, m: nat,
        pm: PartialMatch<E>)
    requires WellFormed(steps) && Trace(steps, h, i, caps, r) && m < |h| && Follows(steps, h, caps, r, m, pm)
    requires Taken(steps, h, n, caps, r, pm.nextStep)
    requires |pm.captures| < BlockEnd(caps, r, pm.nextStep) && r.pos[|pm.captures|] == m
    ensures h[m].Push?
    ensures var s := pm.nextStep;
            var next := Captured(steps[s], pm, h[m].event);
            && Matches(steps[s], h[m].event, pm.captures) && !steps[s].isNegative
            && AtBlock(steps, h, caps, r, m, next) && r.pos[|next.captures| - 1] == m
            && next.repeatCount == (if steps[s].repeat.Some? then |next.captures| - r.stages[s].start else 0)
            && (steps[s].repeat.Some? && next.repeatCount < steps[s].repeat.value.max <==> !LeftAt(r, s, m))
            && (LeftAt(r, s, m) ==> |next.captures| == r.stages[s + 1].start)
  {
    var c, s := |pm.captures|, pm.nextStep;
    assert StepWellFormed(steps, s);
    var upto := if s + 1 < |r.stages| then r.stages[s + 1].entry + 1 else n;
    assert CaptureOk(steps, h, caps, r, s, c, upto);
    assert caps[..c + 1] == caps[..c] + [caps[c]];
    if s + 1 < |r.stages| { assert Entered(h, r, s + 1); }
  }

  /** Action `m` is not captured: the step lets it pass, or is left by it with its block whole. */
  lemma TakesPass<E>(steps: seq<Step<E>>, h: seq<Action<E>>, i: nat, n: nat, caps: seq<Capture<E>>, r: Run, m: nat,
        pm: PartialMatch<E>)
    requires Trace(steps, h, i, caps, r) && m < |h| && Follows(steps, h, caps, r, m, pm)
    requires Taken(steps, h, n, caps, r, pm.nextStep)
    requires |pm.captures| < BlockEnd(caps, r, pm.nextStep) ==> r.pos[|pm.captures|] != m
    requires pm.nextStep + 1 == |r.stages| ==> m < n
    ensures var s, c := pm.nextStep, |pm.captures|;
            && PassOk(steps, s, h[m], caps, r.stages[s].start, c, LeftAt(r, s, m))
            && InTime(steps[s], h[r.stages[s].entry].ts, h[m])
            && (LeftAt(r, s, m) ==> !steps[s].isNegative && c == r.stages[s + 1].start > 0 && r.pos[c - 1] < m)
            && AtBlock(steps, h, caps, r, m, pm)
  {
    hide PassOk;
    assert Between(r, r.stages[pm.nextStep].start, BlockEnd(caps, r, pm.nextStep), |pm.captures|, m);
    assert Entered(h, r, pm.nextStep);
    if pm.nextStep + 1 < |r.stages| { assert Entered(h, r, pm.nextStep + 1); }
  }

  /** What follows the start of a step's block was captured by that step or a later one, after it was entered. */
  lemma NextCaptureLater<E>(steps: seq<Step<E>>, h: seq<Action<E>>, i: nat, n: nat, caps: seq<Capture<E>>, r: Run,
        s: nat)
    requires WellFormed(steps) && Genuine(steps, h, i, n, caps, r) && 1 <= s < |r.stages| && r.stages[s].start < |caps|
    ensures s < |steps| && r.stages[s].from <= r.pos[r.stages[s].start]
  {
    var c := r.stages[s].start;
    StepTaken(steps, h, i, n, caps, r, s);
    assert StepWellFormed(steps, s);
    var upto := if s + 1 < |r.stages| then r.stages[s + 1].entry + 1 else n;
    assert CaptureOk(steps, h, caps, r, s, c, upto);
  }

  /** Step `s` is not left at action `m`: the partial waits at it for the next action. */
  lemma StaysAt<E>(steps: seq<Step<E>>, h: seq<Action<E>>, i: nat, n: nat, caps: seq<Capture<E>>, r: Run, m: nat,
        pm: PartialMatch<E>, next: PartialMatch<E>)
    requires WellFormed(steps) && Genuine(steps, h, i, n, caps, r) && m <= n && Follows(steps, h, caps, r, m, pm)
    requires m == n ==> !OpenEnd(steps, h, n, caps, r)
    requires !LeftAt(r, pm.nextStep, m)
    requires AtBlock(steps, h, caps, r, m, next) && next.nextStep == pm.nextStep && next.deadline == pm.deadline
    requires var s := pm.nextStep;
             next.repeatCount == if steps[s].repeat.Some? then |next.captures| - r.stages[s].start else 0
    ensures m < n && Follows(steps, h, caps, r, m + 1, next)
  {
    hide StageOk;
    var s := pm.nextStep;
    if s + 1 < |r.stages| {
      EnteredByEnd(steps, h, i, n, caps, r, s + 1);
      assert Entered(h, r, s + 1);
      if r.stages[s + 1].start < |caps| { NextCaptureLater(steps, h, i, n, caps, r, s + 1); }
    }
  }

  /** Step `s` is left at action `m`: the partial enters the next step, or completes with everything captured. */
  lemma LeavesTo<E>(steps: seq<Step<E>>, h: seq<Action<E>>, i: nat, n: nat, caps: seq<Capture<E>>, r: Run, m: nat,
        pm: PartialMatch<E>)
    requires WellFormed(steps) && Genuine(steps, h, i, n, caps, r) && m <= n && h[m].Push?
    requires m == n ==> !OpenEnd(steps, h, n, caps, r)
    requires AtBlock(steps, h, caps, r, m, pm) && LeftAt(r, pm.nextStep, m)
    requires |pm.captures| == r.stages[pm.nextStep + 1].start > 0
    ensures var s := pm.nextStep + 1;
            if s >= |steps| then m == n && pm.captures == caps
            else
              var from := if r.pos[|pm.captures| - 1] == m then m + 1 else m;
              from <= n && Follows(steps, h, caps, r, from, Advanced(steps, pm, h[m].ts))
  {
    hide StageOk;
    var s, c := pm.nextStep + 1, |pm.captures|;
    assert Entered(h, r, s);
    if s < |steps| {
      if s + 1 < |r.stages| {
        assert Done(steps, h, caps, r, s) && StepWellFormed(steps, s);
        EntriesGrow(steps, h, i, caps, r, s, s + 1);
        EnteredByEnd(steps, h, i, n, caps, r, s + 1);
      }
      if c < |caps| { NextCaptureLater(steps, h, i, n, caps, r, s); }
    } else {
      assert caps[..|caps|] == caps;
    }
  }

  /** One pushed event, through all the steps it is shown to, does what the run says. */
  lemma {:induction false} OfferFollows<E>(steps: seq<Step<E>>, h: seq<Action<E>>, i: nat, n: nat,
        caps: seq<Capture<E>>, r: Run, m: nat, pm: PartialMatch<E>)
    requires WellFormed(steps) && Genuine(steps, h, i, n, caps, r) && m <= n && h[m].Push?
    requires Follows(steps, h, caps, r, m, pm)
    requires m == n ==> !OpenEnd(steps, h, n, caps, r)
    ensures var o := OfferOutcome(steps, pm, h[m].event, h[m].ts);
            if m < n then o.Stay? && Follows(steps, h, caps, r, m + 1, o.pm) else o == Finish(caps)
    decreases |steps| - pm.nextStep
  {
    var s, c := pm.nextStep, |pm.captures|;
    var step, event, ts := steps[s], h[m].event, h[m].ts;
    StepTaken(steps, h, i, n, caps, r, s);
    assert StepWellFormed(steps, s);
    assert s + 1 == |r.stages| ==> m < n;
    assert pm.captures == caps[..c] && Trace(steps, h, i, caps, r);
    hide Matches, Guarded, Genuine, OpenEnd, Taken, AtBlock, Trace, InTime;
    if c < BlockEnd(caps, r, s) && r.pos[c] == m {
      TakesCapture(steps, h, i, n, caps, r, m, pm);
      var next := Captured(step, pm, event);
      if LeftAt(r, s, m) {
        LeavesTo(steps, h, i, n, caps, r, m, next);
      } else {
        StaysAt(steps, h, i, n, caps, r, m, pm, next);
      }
    } else {
      TakesPass(steps, h, i, n, caps, r, m, pm);
      if LeftAt(r, s, m) {
        LeavesTo(steps, h, i, n, caps, r, m, pm);
        if s + 1 < |steps| { OfferFollows(steps, h, i, n, caps, r, m, Advanced(steps, pm, ts)); }
      } else {
        StaysAt(steps, h, i, n, caps, r, m, pm, pm);
      }
    }
  }

  /** The clock is in the window of the current step, so no sweep takes the partial. */
  lemma ClockInTime<E>(steps: seq<Step<E>>, h: seq<Action<E>>, i: nat, n: nat, caps: seq<Capture<E>>, r: Run, m: nat,
        pm: PartialMatch<E>)
    requires Genuine(steps, h, i, n, caps, r) && m <= n && Follows(steps, h, caps, r, m, pm) && ClockOf(h[m]).Some?
    requires m == n ==> !OpenEnd(steps, h, n, caps, r)
    ensures !Expired(pm, ClockOf(h[m]).value)
  {
    var s := pm.nextStep;
    StepTaken(steps, h, i, n, caps, r, s);
    assert Entered(h, r, s);
    assert s + 1 < |r.stages| || m < n;
    hide Genuine, OpenEnd, Done, Trace, PassOk, CaptureOk;
    assert InTime(steps[s], h[r.stages[s].entry].ts, h[m]) by {
      if s + 1 < |r.stages| { assert Done(steps, h, caps, r, s) by { } }
    }
  }

  /** A tick or a flush before the end neither is captured nor leaves a step. */
  lemma NotPushed<E>(steps: seq<Step<E>>, h: seq<Action<E>>, i: nat, n: nat, caps: seq<Capture<E>>, r: Run, m: nat,
        pm: PartialMatch<E>)
    requires Genuine(steps, h, i, n, caps, r) && m <= n && Follows(steps, h, caps, r, m, pm) && !h[m].Push?
    requires Taken(steps, h, n, caps, r, pm.nextStep) && (m == n ==> !OpenEnd(steps, h, n, caps, r))
    ensures m < n && !LeftAt(r, pm.nextStep, m)
    ensures |pm.captures| < BlockEnd(caps, r, pm.nextStep) ==> r.pos[|pm.captures|] != m
  {
    var s, c := pm.nextStep, |pm.captures|;
    assert Entered(h, r, |r.stages| - 1);
    if s + 1 < |r.stages| { assert Entered(h, r, s + 1); }
    if c < BlockEnd(caps, r, s) {
      var upto := if s + 1 < |r.stages| then r.stages[s + 1].entry + 1 else n;
      assert CaptureOk(steps, h, caps, r, s, c, upto);
    }
  }

  /** An open end resolves the partial with everything captured. */
  lemma EndFollows<E>(steps: seq<Step<E>>, h: seq<Action<E>>, i: nat, n: nat, caps: seq<Capture<E>>, r: Run,
        pm: PartialMatch<E>)
    requires WellFormed(steps) && Inputs(h) && Genuine(steps, h, i, n, caps, r) && OpenEnd(steps, h, n, caps, r)
    requires Follows(steps, h, caps, r, n, pm)
    ensures React(steps, pm, h[n]) == Resolve(caps)
  {
    var s, c := pm.nextStep, |pm.captures|;
    if s + 1 < |r.stages| { EnteredByEnd(steps, h, i, n, caps, r, s + 1); }
    assert StepWellFormed(steps, s);
    assert s == |steps| - 1 && r.stages[s].start <= c;
    forall k | r.stages[s].start <= k < |caps| ensures r.pos[k] < n { assert CaptureOk(steps, h, caps, r, s, k, n); }
    assert caps[..|caps|] == caps;
  }

  /** Any action before the end leaves the partial where the run says, and the end makes it the match. */
  lemma ActionFollows<E>(steps: seq<Step<E>>, h: seq<Action<E>>, i: nat, n: nat, caps: seq<Capture<E>>, r: Run, m: nat,
        pm: PartialMatch<E>)
    requires WellFormed(steps) && Inputs(h) && Genuine(steps, h, i, n, caps, r) && m <= n
    requires Follows(steps, h, caps, r, m, pm)
    ensures var o := React(steps, pm, h[m]);
            if m < n then o.Stay? && Follows(steps, h, caps, r, m + 1, o.pm)
            else o == if OpenEnd(steps, h, n, caps, r) then Resolve(caps) else Finish(caps)
  {
    if m == n && OpenEnd(steps, h, n, caps, r) {
      EndFollows(steps, h, i, n, caps, r, pm);
    } else {
      if ClockOf(h[m]).Some? { ClockInTime(steps, h, i, n, caps, r, m, pm); }
      if h[m].Push? {
        OfferFollows(steps, h, i, n, caps, r, m, pm);
      } else {
        var s := pm.nextStep;
        StepTaken(steps, h, i, n, caps, r, s);
        NotPushed(steps, h, i, n, caps, r, m, pm);
        TakesPass(steps, h, i, n, caps, r, m, pm);
        StaysAt(steps, h, i, n, caps, r, m, pm, pm);
      }
    }
  }

  lemma OpeningFollows<E>(steps: seq<Step<E>>, h: seq<Action<E>>, i: nat, n: nat, caps: seq<Capture<E>>, r: Run)
    requires WellFormed(steps) && Genuine(steps, h, i, n, caps, r) && |steps| > 1
    ensures i < n && Follows(steps, h, caps, r, i + 1, Fresh(steps, h[i].event, h[i].ts))
  {
    hide StageOk;
    assert StepWellFormed(steps, 1);
    assert caps[..1] == [caps[0]];
    if |r.stages| > 2 {
      EntriesGrow(steps, h, i, caps, r, 1, 2);
      EnteredByEnd(steps, h, i, n, caps, r, 2);
      assert Done(steps, h, caps, r, 1);
    }
  }

  /** Until its end a genuine run is what the solo simulation of its opening is doing. */
  lemma {:induction false} LiveFollows<E>(steps: seq<Step<E>>, h: seq<Action<E>>, i: nat, n: nat, caps: seq<Capture<E>>,
        r: Run, m: nat)
    requires WellFormed(steps) && Inputs(h) && Genuine(steps, h, i, n, caps, r) && |steps| > 1 && i < m <= n
    ensures var f := Solo(steps, h, i, m); f.Live? && Follows(steps, h, caps, r, m, f.pm)
    decreases m
  {
    hide React, Follows;
    if m == i + 1 {
      OpeningFollows(steps, h, i, n, caps, r);
    } else {
      LiveFollows(steps, h, i, n, caps, r, m - 1);
      ActionFollows(steps, h, i, n, caps, r, m - 1, Solo(steps, h, i, m - 1).pm);
    }
  }

  /** What action `n` emits for the opening `i`, simulated alone. */
  ghost predicate EmitsAlone<E>(steps: seq<Step<E>>, h: seq<Action<E>>, i: nat, n: nat, caps: seq<Capture<E>>)
    requires |steps| > 0 && i <= n < |h|
  {
    if i == n then Immediate(steps, h[n]) == [caps]
    else
      var f := Solo(steps, h, i, n + 1);
      f.Gone? && f.at == n && (f.outcome == Resolve(caps) || f.outcome == Finish(caps))
  }

  /**
   The declarative and the operational meaning agree: for every accepted pattern and history, the opening `i` alone is
   emitted by action `n` with the captures `caps` if and only if they have a genuine run.
   */
  lemma GenuineIff<E>(steps: seq<Step<E>>, h: seq<Action<E>>, i: nat, n: nat, caps: seq<Capture<E>>)
    requires WellFormed(steps) && Inputs(h) && i <= n < |h|
    ensures EmitsAlone(steps, h, i, n, caps) <==> exists r :: Genuine(steps, h, i, n, caps, r)
  {
    if EmitsAlone(steps, h, i, n, caps) {
      var r := AloneIsGenuine(steps, h, i, n, caps);
    }
    if r :| Genuine(steps, h, i, n, caps, r) {
      GenuineIsAlone(steps, h, i, n, caps, r);
    }
  }

  lemma AloneIsGenuine<E>(steps: seq<Step<E>>, h: seq<Action<E>>, i: nat, n: nat, caps: seq<Capture<E>>)
    returns (r: Run)
    requires WellFormed(steps) && Inputs(h) && i <= n < |h| && EmitsAlone(steps, h, i, n, caps)
    ensures Genuine(steps, h, i, n, caps, r)
  {
    hide Genuine, Solo;
    if i == n {
      OneStepIsGenuine(steps, h, n);
      r := Run([n], [Stage(0, n, n), Stage(1, n, n + 1)]);
    } else {
      r := GoneIsGenuine(steps, h, i, n);
    }
  }

  lemma GenuineIsAlone<E>(steps: seq<Step<E>>, h: seq<Action<E>>, i: nat, n: nat, caps: seq<Capture<E>>, r: Run)
    requires WellFormed(steps) && Inputs(h) && i <= n < |h| && Genuine(steps, h, i, n, caps, r)
    ensures EmitsAlone(steps, h, i, n, caps)
  {
    if |steps| > 1 {
      OpeningFollows(steps, h, i, n, caps, r);
      LiveFollows(steps, h, i, n, caps, r, n);
      ActionFollows(steps, h, i, n, caps, r, n, Solo(steps, h, i, n).pm);
    } else {
      assert caps == [caps[0]];
    }
  }

  /** An opening is emitted at most once: its genuine runs all end at the same action with the same captures. */
  lemma OneMatchPerOpening<E>(steps: seq<Step<E>>, h: seq<Action<E>>, i: nat, n: nat, caps: seq<Capture<E>>, r: Run,
        n': nat, caps': seq<Capture<E>>, r': Run)
    requires WellFormed(steps) && Inputs(h) && i <= n <= n' < |h|
    requires Genuine(steps, h, i, n, caps, r) && Genuine(steps, h, i, n', caps', r')
    ensures n == n' && caps == caps'
  {
    GenuineIsAlone(steps, h, i, n, caps, r);
    GenuineIsAlone(steps, h, i, n', caps', r');
    hide Genuine;
    if |steps| > 1 && i < n < n' { GoneStays(steps, h, i, n + 1, n' + 1); }
  }

  lemma {:induction false} GoneStays<E>(steps: seq<Step<E>>, h: seq<Action<E>>, i: nat, m: nat, n: nat)
    requires |steps| > 0 && i < m <= n <= |h| && Solo(steps, h, i, m).Gone?
    ensures Solo(steps, h, i, n) == Solo(steps, h, i, m)
  {
    hide React;
    if m < n { GoneStays(steps, h, i, m, n - 1); }
  }

  lemma {:induction false} FinishedListed<E>(steps: seq<Step<E>>, h: seq<Action<E>>, i: nat, k: nat, at: nat)
    requires |steps| > 0 && i < k <= at < |h| && Roomy(steps, h, i, at)
    requires var f := Solo(steps, h, i, at + 1); f.Gone? && f.at == at && f.outcome.Finish?
    ensures Solo(steps, h, i, at + 1).outcome.finished in SoloFinished(steps, h, k, at)
  {
    hide Solo, Roomy;
    if i < k - 1 { FinishedListed(steps, h, i, k - 1, at); }
  }

  lemma InReverse<T>(s: seq<T>, x: T)
    requires x in s
    ensures x in Reverse(s)
  {
    ReverseAt(s);
    var k :| 0 <= k < |s| && s[k] == x;
    assert Reverse(s)[|s| - 1 - k] == x;
  }

  lemma AloneIsEmitted<E>(steps: seq<Step<E>>, h: seq<Action<E>>, i: nat, n: nat, caps: seq<Capture<E>>)
    requires |steps| > 0 && i <= n < |h| && EmitsAlone(steps, h, i, n, caps) && Roomy(steps, h, i, n)
    ensures caps in Emitted(steps, h, n)
  {
    hide Solo, Roomy, Emitted;
    MachineEmitsSolos(steps, h, n);
    if i < n {
      if Solo(steps, h, i, n + 1).outcome.Resolve? {
        Absence.ResolvedListed(steps, h, i, n, n);
      } else {
        FinishedListed(steps, h, i, n, n);
        InReverse(SoloFinished(steps, h, n, n), caps);
      }
    }
  }

  /**
   The matcher's meaning without its machinery: for every accepted pattern and every history, an action emits exactly
   the genuine runs that end there of the openings never crowded out.
   */
  lemma EmitsExactlyGenuine<E>(steps: seq<Step<E>>, h: seq<Action<E>>, n: nat, caps: seq<Capture<E>>)
    requires WellFormed(steps) && Inputs(h) && n < |h|
    ensures caps in Emitted(steps, h, n)
       <==> exists i: nat, r :: i <= n && Roomy(steps, h, i, n) && Genuine(steps, h, i, n, caps, r)
  {
    hide Genuine, Roomy, Emitted, Solo;
    if caps in Emitted(steps, h, n) {
      var k :| 0 <= k < |Emitted(steps, h, n)| && Emitted(steps, h, n)[k] == caps;
      var i, r := EmittedIsGenuine(steps, h, n, k);
    }
    if i: nat, r :| i <= n && Roomy(steps, h, i, n) && Genuine(steps, h, i, n, caps, r) {
      GenuineIsAlone(steps, h, i, n, caps, r);
      AloneIsEmitted(steps, h, i, n, caps);
    }
  }
}

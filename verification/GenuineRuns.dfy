/**
 Every emitted match is a genuine run of the pattern. A `Run` says which action supplied each capture and, for each
 step, where its block of captures starts, which action entered it and which action it was first shown; the
 predicates below say, from the pattern and the history alone, when such a run is genuine. `ExactMatches` proves the
 converse: every genuine run is emitted.
 */
module GenuineRuns {
  import opened Common
  import opened Matching
  import opened Refinement

  /** Captures of a step start at `start`; action `entry` entered it; it was shown actions from `from` on. */
  datatype Stage = Stage(start: nat, entry: nat, from: nat)

  datatype Run = Run(pos: seq<nat>, stages: seq<Stage>)

  /** What the pattern builder guarantees of the step list. */
  ghost predicate StepWellFormed<E>(steps: seq<Step<E>>, s: nat)
    requires s < |steps|
  {
    && (steps[s].isNegative ==> s == |steps| - 1 && steps[s].within.Some? && steps[s].repeat.None?)
    && (steps[s].within.Some? ==> steps[s].within.value >= 0)
    && (steps[s].repeat.Some? ==> 1 <= steps[s].repeat.value.min <= steps[s].repeat.value.max)
  }

  ghost predicate WellFormed<E>(steps: seq<Step<E>>) {
    |steps| > 0 && forall s :: 0 <= s < |steps| ==> StepWellFormed(steps, s)
  }

  /** A history made of the caller's own actions. */
  ghost predicate Inputs<E>(h: seq<Action<E>>) {
    forall k :: 0 <= k < |h| ==> !h[k].Offer?
  }

  ghost predicate InWindow<E>(step: Step<E>, entered: I64, ts: I64) {
    step.within.Some? ==> ts <= SaturatingAdd(entered, step.within.value)
  }

  /** Capture `k`, taken by step `s`: a pushed event the step was shown, satisfying its predicate. */
  ghost predicate CaptureOk<E>(steps: seq<Step<E>>, h: seq<Action<E>>, caps: seq<Capture<E>>, r: Run, s: nat, k: nat,
        upto: nat) {
    && s < |steps| && s < |r.stages| && k < |caps| && k < |r.pos|
    && r.stages[s].from <= r.pos[k] < upto <= |h| && h[r.pos[k]].Push?
    && caps[k] == Capture(steps[s].name, h[r.pos[k]].event)
    && steps[s].test.evaluateInContext(h[r.pos[k]].event, caps[..k])
  }

  /** Action `q` falls between the first `c` captures and the rest of the block start..hi. */
  ghost predicate Between(r: Run, start: nat, hi: nat, c: nat, q: nat) {
    && start <= c <= hi <= |r.pos|
    && (c > start ==> r.pos[c - 1] < q)
    && (c < hi ==> q < r.pos[c])
  }

  /** The step's repetition has reached its minimum. */
  ghost predicate Satisfied<E>(step: Step<E>, size: int) {
    step.repeat.Some? && size >= step.repeat.value.min
  }

  /**
   An event not captured by a step with `c` captures so far: no match, no guard. Either it ends a satisfied repetition,
   or the step is an absence or passes over it: eventual, with no satisfied repetition to end.
   */
  ghost predicate SkipOk<E>(step: Step<E>, event: E, caps: seq<Capture<E>>, start: nat, c: nat, leaves: bool) {
    && c <= |caps|
    && !step.test.evaluateInContext(event, caps[..c])
    && (step.isNegative
        || ((step.forbidden.Some? ==> !step.forbidden.value.evaluateInContext(event, caps[..c]))
            && if leaves then Satisfied(step, c - start)
               else step.contiguity == Eventually && !Satisfied(step, c - start)))
  }

  /** The end of the stream resolves a partial at step `s`: an absence, or a satisfied final repetition. */
  ghost predicate EndResolves<E>(steps: seq<Step<E>>, s: nat, size: int)
    requires s < |steps|
  {
    steps[s].isNegative || (s + 1 >= |steps| && Satisfied(steps[s], size))
  }

  /** An action that step `s`, with `c` captures so far, lets pass (or, if it `leaves`, is left by). */
  ghost predicate PassOk<E>(steps: seq<Step<E>>, s: nat, a: Action<E>, caps: seq<Capture<E>>, start: nat, c: nat,
        leaves: bool)
    requires s < |steps|
  {
    match a
    case Push(event, _) => SkipOk(steps[s], event, caps, start, c, leaves)
    case Flush => !EndResolves(steps, s, c - start)
    case Reset => false
    case _ => true
  }

  /** The instant an action reads the clock at, if it sweeps deadlines. */
  function ClockOf<E>(a: Action<E>): Option<I64> {
    match a case Push(_, ts) => Some(ts) case Tick(now) => Some(now) case _ => None
  }

  ghost predicate InTime<E>(step: Step<E>, entered: I64, a: Action<E>) {
    ClockOf(a).Some? ==> InWindow(step, entered, ClockOf(a).value)
  }

  /**
   Step `s` took the block start..hi and was shown exactly the actions from..upto, the clock staying in its window; with
   `left`, the last of them is where it was left.
   */
  ghost predicate StageOk<E>(steps: seq<Step<E>>, h: seq<Action<E>>, caps: seq<Capture<E>>, r: Run, s: nat, hi: nat,
        upto: nat, left: bool)
    requires s < |steps| && s < |r.stages| && hi <= |caps| && upto <= |h|
  {
    var st := r.stages[s];
    && st.start <= hi && hi <= |r.pos| && st.entry < |h| && h[st.entry].Push?
    && (forall k :: st.start <= k < hi ==> CaptureOk(steps, h, caps, r, s, k, upto))
    && (forall q :: st.entry <= q < upto ==> InTime(steps[s], h[st.entry].ts, h[q]))
    && (forall q: nat, c: nat :: st.from <= q < upto && Between(r, st.start, hi, c, q)
          ==> PassOk(steps, s, h[q], caps, st.start, c, left && q == upto - 1))
  }

  /** The size of a completed block: one capture, or min..max when repeated. */
  ghost predicate BlockFull<E>(step: Step<E>, size: int) {
    match step.repeat case None => size == 1 case Some(spec) => spec.min <= size <= spec.max
  }

  /** No further capture fits. */
  ghost predicate BlockAtMost<E>(step: Step<E>, size: int) {
    match step.repeat case None => size == 1 case Some(spec) => size == spec.max
  }

  /** A completed step: positive, with a full block, left on its last capture exactly when no further one fits. */
  ghost predicate Done<E>(steps: seq<Step<E>>, h: seq<Action<E>>, caps: seq<Capture<E>>, r: Run, s: nat) {
    && s < |steps| && s + 1 < |r.stages| && r.stages[s + 1].start <= |caps| && r.stages[s + 1].entry < |h|
    && StageOk(steps, h, caps, r, s, r.stages[s + 1].start, r.stages[s + 1].entry + 1, true)
    && !steps[s].isNegative
    && var size := r.stages[s + 1].start - r.stages[s].start;
       && BlockFull(steps[s], size)
       && 0 < r.stages[s + 1].start <= |r.pos|
       && (BlockAtMost(steps[s], size) <==> r.pos[r.stages[s + 1].start - 1] == r.stages[s + 1].entry)
  }

  /**
   The opening, which takes one event whatever the first step asks (see `FirstStep`), strictly increasing positions, and
   every later step before the last listed stage completed.
   */
  ghost predicate Trace<E>(steps: seq<Step<E>>, h: seq<Action<E>>, i: nat, caps: seq<Capture<E>>, r: Run) {
    && |steps| > 0 && i < |h| && h[i].Push? && steps[0].test.evaluate(h[i].event)
    && |r.pos| == |caps| >= 1 && r.pos[0] == i && caps[0] == Capture(steps[0].name, h[i].event)
    && (forall a, b :: 0 <= a < b < |r.pos| ==> r.pos[a] < r.pos[b])
    && 2 <= |r.stages| <= |steps| + 1 && r.stages[0] == Stage(0, i, i) && r.stages[1] == Stage(1, i, i + 1)
    && (forall s :: 1 <= s < |r.stages| ==> Entered(h, r, s))
    && (forall s :: 1 <= s < |r.stages| - 1 ==> Done(steps, h, caps, r, s))
  }

  /** A step is shown events from its entry on, the entering event itself only if no earlier step captured it. */
  ghost predicate Entered<E>(h: seq<Action<E>>, r: Run, s: nat) {
    && s < |r.stages| && r.stages[s].start <= |r.pos|
    && r.stages[s].entry < |h| && h[r.stages[s].entry].Push?
    && r.stages[s].start > 0 && r.pos[r.stages[s].start - 1] <= r.stages[s].entry
    && r.stages[s].from
       == if r.pos[r.stages[s].start - 1] == r.stages[s].entry then r.stages[s].entry + 1 else r.stages[s].entry
  }

  /** A step still open has captured nothing, or, when repeated, has room for more. */
  ghost predicate BlockOpen<E>(step: Step<E>, size: int) {
    match step.repeat case None => size == 0 case Some(spec) => size < spec.max
  }

  /**
   `r` accounts for the partial `pm` opened by action `i`, with its current step shown everything before action `n`.
   */
  ghost predicate Explains<E>(steps: seq<Step<E>>, h: seq<Action<E>>, i: nat, n: nat, pm: PartialMatch<E>, r: Run) {
    && Trace(steps, h, i, pm.captures, r) && |r.pos| == |pm.captures|
    && n <= |h| && pm.nextStep < |steps| && |r.stages| == pm.nextStep + 1
    && (forall k :: 0 <= k < |r.pos| ==> r.pos[k] < n)
    && Entered(h, r, pm.nextStep) && r.stages[pm.nextStep].from <= n
    && StageOk(steps, h, pm.captures, r, pm.nextStep, |pm.captures|, n, false)
    && pm.repeatCount == |pm.captures| - r.stages[pm.nextStep].start && BlockOpen(steps[pm.nextStep], pm.repeatCount)
    && pm.deadline == DeadlineFor(steps, pm.nextStep, h[r.stages[pm.nextStep].entry].ts)
  }

  /**
   The last step was left open: its window closed on an absence, or the stream ended on an absence or a satisfied
   repetition. An absence has captured nothing; a repetition still has room.
   */
  ghost predicate OpenEnd<E>(steps: seq<Step<E>>, h: seq<Action<E>>, n: nat, caps: seq<Capture<E>>, r: Run) {
    var s := |steps| - 1;
    && n < |h| && s >= 0 && |r.stages| == |steps| && r.stages[s].entry < n && h[r.stages[s].entry].Push?
    && StageOk(steps, h, caps, r, s, |caps|, n, false)
    && BlockOpen(steps[s], |caps| - r.stages[s].start)
    && if h[n].Flush? then EndResolves(steps, s, |caps| - r.stages[s].start)
       else steps[s].isNegative && !InTime(steps[s], h[r.stages[s].entry].ts, h[n])
  }

  /** A genuine match emitted by action `n`: every step completed, or all but the last with the last left open. */
  ghost predicate Genuine<E>(steps: seq<Step<E>>, h: seq<Action<E>>, i: nat, n: nat, caps: seq<Capture<E>>, r: Run) {
    && n < |h| && Trace(steps, h, i, caps, r)
    && (forall k :: 0 <= k < |r.pos| ==> r.pos[k] <= n)
    && (|| (|r.stages| == |steps| + 1 && r.stages[|steps|].start == |caps| && r.stages[|steps|].entry == n)
        || OpenEnd(steps, h, n, caps, r))
  }

  // ---- How a run grows by one action ----

  ghost predicate Extends(r: Run, r': Run) {
    r.pos <= r'.pos && r.stages <= r'.stages
  }

  /** A stage that ended inside the captures so far does not notice later captures or stages. */
  lemma StageKept<E>(steps: seq<Step<E>>, h: seq<Action<E>>, caps: seq<Capture<E>>, caps': seq<Capture<E>>, r: Run,
        r': Run, s: nat, hi: nat, upto: nat, left: bool)
    requires caps <= caps' && Extends(r, r') && |r.pos| == |caps|
    requires s < |steps| && s < |r.stages| && hi <= |caps| && upto <= |h|
    requires StageOk(steps, h, caps, r, s, hi, upto, left)
    ensures StageOk(steps, h, caps', r', s, hi, upto, left)
  {
    hide Matches, Guarded, InTime;
    var st := r.stages[s];
    assert r'.stages[s] == st;
    forall k | st.start <= k < hi ensures CaptureOk(steps, h, caps', r', s, k, upto) {
      assert CaptureOk(steps, h, caps, r, s, k, upto);
      assert caps'[..k] == caps[..k] && r'.pos[k] == r.pos[k];
    }
    forall q: nat, c: nat | st.from <= q < upto && Between(r', st.start, hi, c, q)
      ensures PassOk(steps, s, h[q], caps', st.start, c, left && q == upto - 1)
    {
      assert Between(r, st.start, hi, c, q);
      assert caps'[..c] == caps[..c];
    }
  }

  lemma DoneKept<E>(steps: seq<Step<E>>, h: seq<Action<E>>, caps: seq<Capture<E>>, caps': seq<Capture<E>>, r: Run,
        r': Run, s: nat)
    requires caps <= caps' && Extends(r, r') && |r.pos| == |caps| && Done(steps, h, caps, r, s)
    ensures Done(steps, h, caps', r', s)
  {
    hide StageOk;
    assert r'.stages[s] == r.stages[s] && r'.stages[s + 1] == r.stages[s + 1];
    StageKept(steps, h, caps, caps', r, r', s, r.stages[s + 1].start, r.stages[s + 1].entry + 1, true);
  }

  /** The last listed stage is completed by entering the next one at action `n`. */
  lemma CompletesNow<E>(steps: seq<Step<E>>, h: seq<Action<E>>, n: nat, caps: seq<Capture<E>>, r: Run, r': Run)
    requires |r.stages| > 0 && Extends(r, r') && |r.pos| == |caps| > 0 && r'.pos == r.pos && n < |h|
    requires var s := |r.stages| - 1;
             && s < |steps| && !steps[s].isNegative && StageOk(steps, h, caps, r, s, |caps|, n + 1, true)
             && BlockFull(steps[s], |caps| - r.stages[s].start)
             && (BlockAtMost(steps[s], |caps| - r.stages[s].start) <==> r.pos[|caps| - 1] == n)
             && |r'.stages| == s + 2 && r'.stages[s + 1].start == |caps| && r'.stages[s + 1].entry == n
    ensures Done(steps, h, caps, r', |r.stages| - 1)
  {
    hide StageOk;
    var s := |r.stages| - 1;
    assert r'.stages[s] == r.stages[s];
    StageKept(steps, h, caps, caps, r, r', s, |caps|, n + 1, true);
  }

  lemma TraceKept<E>(steps: seq<Step<E>>, h: seq<Action<E>>, i: nat, caps: seq<Capture<E>>, caps': seq<Capture<E>>,
        r: Run, r': Run)
    requires Trace(steps, h, i, caps, r) && caps <= caps' && Extends(r, r')
    requires |r'.pos| == |caps'| && |r'.stages| == |r.stages|
    requires forall a, b :: 0 <= a < b < |r'.pos| ==> r'.pos[a] < r'.pos[b]
    ensures Trace(steps, h, i, caps', r')
  {
    hide StageOk;
    forall s | 1 <= s < |r.stages| ensures Entered(h, r', s) {
      assert Entered(h, r, s);
      assert r'.stages[s] == r.stages[s] && r'.pos[r.stages[s].start - 1] == r.pos[r.stages[s].start - 1];
    }
    forall s | 1 <= s < |r.stages| - 1 ensures Done(steps, h, caps', r', s) {
      DoneKept(steps, h, caps, caps', r, r', s);
    }
  }

  /** An action that the current step lets pass, or that it is left by. */
  lemma StageSkips<E>(steps: seq<Step<E>>, h: seq<Action<E>>, caps: seq<Capture<E>>, r: Run, s: nat, n: nat, left: bool)
    requires s < |steps| && s < |r.stages| && |r.pos| == |caps| && n < |h|
    requires StageOk(steps, h, caps, r, s, |caps|, n, false)
    requires forall k :: 0 <= k < |r.pos| ==> r.pos[k] < n
    requires InTime(steps[s], h[r.stages[s].entry].ts, h[n])
    requires PassOk(steps, s, h[n], caps, r.stages[s].start, |caps|, left)
    ensures StageOk(steps, h, caps, r, s, |caps|, n + 1, left)
  {
    hide Matches, Guarded, InTime, PassOk;
    var st, upto := r.stages[s], n + 1;
    forall k | st.start <= k < |caps| ensures CaptureOk(steps, h, caps, r, s, k, upto) {
      assert CaptureOk(steps, h, caps, r, s, k, n);
    }
    forall q: nat, c: nat | st.from <= q < n + 1 && Between(r, st.start, |caps|, c, q)
      ensures PassOk(steps, s, h[q], caps, st.start, c, left && q == n)
    {
      assert c < |caps| ==> q < r.pos[c] < n;
    }
  }

  /** The current step captures event `n`. */
  lemma StageCaptures<E>(steps: seq<Step<E>>, h: seq<Action<E>>, caps: seq<Capture<E>>, r: Run, s: nat, n: nat,
        left: bool)
    requires s < |steps| && s < |r.stages| && |r.pos| == |caps| && n < |h| && h[n].Push?
    requires r.stages[s].from <= n
    requires StageOk(steps, h, caps, r, s, |caps|, n, false)
    requires forall k :: 0 <= k < |r.pos| ==> r.pos[k] < n
    requires Matches(steps[s], h[n].event, caps) && InTime(steps[s], h[r.stages[s].entry].ts, h[n])
    ensures var caps', r' := caps + [Capture(steps[s].name, h[n].event)], Run(r.pos + [n], r.stages);
            StageOk(steps, h, caps', r', s, |caps'|, n + 1, left)
  {
    hide InTime, PassOk;
    var caps', r' := caps + [Capture(steps[s].name, h[n].event)], Run(r.pos + [n], r.stages);
    var st, upto := r.stages[s], n + 1;
    StageKept(steps, h, caps, caps', r, r', s, |caps|, n, false);
    forall k | st.start <= k < |caps'| ensures CaptureOk(steps, h, caps', r', s, k, upto) {
      if k < |caps| {
        assert CaptureOk(steps, h, caps', r', s, k, n);
      } else {
        assert caps'[..k] == caps;
      }
    }
    forall q: nat, c: nat | st.from <= q < n + 1 && Between(r', st.start, |caps'|, c, q)
      ensures PassOk(steps, s, h[q], caps', st.start, c, left && q == n)
    {
      if c < |caps| {
        assert r'.pos[c] == r.pos[c] < n;
      }
      assert q < n && c <= |caps|;
      assert Between(r', st.start, |caps|, c, q);
    }
  }

  /** Entering the next step at action `n`, with the current step's block complete. */
  lemma StageAdvances<E>(steps: seq<Step<E>>, h: seq<Action<E>>, i: nat, n: nat, pm: PartialMatch<E>,
        r: Run) returns (r': Run)
    requires Trace(steps, h, i, pm.captures, r) && n < |h| && h[n].Push? && WellFormed(steps)
    requires pm.nextStep < |steps| && |r.stages| == pm.nextStep + 1 && !steps[pm.nextStep].isNegative
    requires forall k :: 0 <= k < |r.pos| ==> r.pos[k] <= n
    requires StageOk(steps, h, pm.captures, r, pm.nextStep, |pm.captures|, n + 1, true)
    requires var size := |pm.captures| - r.stages[pm.nextStep].start;
             && BlockFull(steps[pm.nextStep], size)
             && (BlockAtMost(steps[pm.nextStep], size) <==> r.pos[|r.pos| - 1] == n)
    ensures var captured := r.pos[|r.pos| - 1] == n;
            && r'.pos == r.pos && Trace(steps, h, i, pm.captures, r')
            && |r'.stages| == pm.nextStep + 2
            && r'.stages[pm.nextStep + 1] == Stage(|pm.captures|, n, if captured then n + 1 else n)
            && (pm.nextStep + 1 < |steps|
                ==> Explains(steps, h, i, if captured then n + 1 else n, Advanced(steps, pm, h[n].ts), r'))
  {
    var caps, s := pm.captures, pm.nextStep;
    var from := if r.pos[|r.pos| - 1] == n then n + 1 else n;
    r' := Run(r.pos, r.stages + [Stage(|caps|, n, from)]);
    CompletesNow(steps, h, n, caps, r, r');
    hide StageOk, Explains, Advanced, WellFormed, Done, BlockFull, BlockAtMost;
    forall t | 1 <= t < |r'.stages| ensures Entered(h, r', t) {
      if t < |r.stages| { assert Entered(h, r, t); }
    }
    forall t | 1 <= t < |r'.stages| - 1 ensures Done(steps, h, caps, r', t) {
      if t < s { DoneKept(steps, h, caps, caps, r, r', t); }
    }
    forall k | 0 <= k < |r.pos| ensures r.pos[k] < from {
      assert k < |r.pos| - 1 ==> r.pos[k] < r.pos[|r.pos| - 1];
    }
    if s + 1 < |steps| { NewStageExplained(steps, h, i, n, pm, r'); }
  }

  lemma NewStageExplained<E>(steps: seq<Step<E>>, h: seq<Action<E>>, i: nat, n: nat, pm: PartialMatch<E>, r: Run)
    requires Trace(steps, h, i, pm.captures, r) && n < |h| && h[n].Push? && WellFormed(steps)
    requires pm.nextStep + 1 < |steps| && |r.stages| == pm.nextStep + 2
    requires var captured := r.pos[|r.pos| - 1] == n;
             r.stages[pm.nextStep + 1] == Stage(|pm.captures|, n, if captured then n + 1 else n)
    requires forall k :: 0 <= k < |r.pos| ==> r.pos[k] < r.stages[pm.nextStep + 1].from
    ensures Explains(steps, h, i, r.stages[pm.nextStep + 1].from, Advanced(steps, pm, h[n].ts), r)
  {
    assert Entered(h, r, pm.nextStep + 1) && |r.pos| == |pm.captures|;
    hide Trace, PassOk;
    assert StepWellFormed(steps, pm.nextStep + 1);
  }

  lemma FreshDeadlineOpen<E>(steps: seq<Step<E>>, pm: PartialMatch<E>, ts: I64)
    requires WellFormed(steps)
    ensures !Expired(Advanced(steps, pm, ts), ts)
  {
    if pm.nextStep + 1 < |steps| { assert StepWellFormed(steps, pm.nextStep + 1); }
  }

  ghost predicate Ended<E>(steps: seq<Step<E>>, h: seq<Action<E>>, i: nat, n: nat, caps: seq<Capture<E>>, r: Run) {
    && Trace(steps, h, i, caps, r) && |r.stages| == |steps| + 1
    && r.stages[|steps|].start == |caps| && r.stages[|steps|].entry == n
    && forall k :: 0 <= k < |r.pos| ==> r.pos[k] <= n
  }

  /** An unexpired deadline is a clock inside the window of the current step. */
  lemma OpenDeadline<E>(steps: seq<Step<E>>, h: seq<Action<E>>, i: nat, n: nat, pm: PartialMatch<E>, r: Run,
        a: Action<E>)
    requires Explains(steps, h, i, n, pm, r) && ClockOf(a).Some?
    ensures !Expired(pm, ClockOf(a).value) <==> InTime(steps[pm.nextStep], h[r.stages[pm.nextStep].entry].ts, a)
  {
    hide Trace, StageOk;
  }

  /** One pushed event, through all the steps it is shown to. */
  lemma {:induction false} OfferExplained<E>(steps: seq<Step<E>>, h: seq<Action<E>>, i: nat, n: nat,
        pm: PartialMatch<E>, r: Run) returns (r': Run)
    requires WellFormed(steps) && n < |h| && h[n].Push?
    requires Explains(steps, h, i, n, pm, r) && !Expired(pm, h[n].ts)
    ensures var o := OfferOutcome(steps, pm, h[n].event, h[n].ts);
            && (o.Stay? ==> Explains(steps, h, i, n + 1, o.pm, r'))
            && (o.Finish? ==> Ended(steps, h, i, n, o.finished, r'))
    decreases |steps| - pm.nextStep
  {
    hide Trace, StageOk, Done;
    var step, event, ts := steps[pm.nextStep], h[n].event, h[n].ts;
    assert StepWellFormed(steps, pm.nextStep);
    OpenDeadline(steps, h, i, n, pm, r, h[n]);
    var matches := Matches(step, event, pm.captures);
    assert pm.captures[..|pm.captures|] == pm.captures;
    r' := r;
    if step.isNegative || (!matches && Guarded(step, event, pm.captures)) {
      if step.isNegative && !matches {
        StageSkips(steps, h, pm.captures, r, pm.nextStep, n, false);
      }
    } else if matches {
      var captured := Captured(step, pm, event);
      var stays := step.repeat.Some? && captured.repeatCount < step.repeat.value.max;
      var r1 := CaptureExplained(steps, h, i, n, pm, r, !stays);
      r' := r1;
      if !stays { r' := StageAdvances(steps, h, i, n, captured, r1); }
    } else if step.repeat.Some? && pm.repeatCount >= step.repeat.value.min {
      StageSkips(steps, h, pm.captures, r, pm.nextStep, n, true);
      var r1 := StageAdvances(steps, h, i, n, pm, r);
      r' := r1;
      if pm.nextStep + 1 < |steps| {
        FreshDeadlineOpen(steps, pm, ts);
        r' := OfferExplained(steps, h, i, n, Advanced(steps, pm, ts), r1);
      }
    } else if step.contiguity != Next {
      StageSkips(steps, h, pm.captures, r, pm.nextStep, n, false);
    }
  }

  lemma CaptureExplained<E>(steps: seq<Step<E>>, h: seq<Action<E>>, i: nat, n: nat, pm: PartialMatch<E>, r: Run,
        left: bool) returns (r': Run)
    requires n < |h| && h[n].Push? && Explains(steps, h, i, n, pm, r) && !Expired(pm, h[n].ts)
    requires Matches(steps[pm.nextStep], h[n].event, pm.captures)
    ensures var captured := Captured(steps[pm.nextStep], pm, h[n].event);
            && r' == Run(r.pos + [n], r.stages)
            && Trace(steps, h, i, captured.captures, r')
            && StageOk(steps, h, captured.captures, r', pm.nextStep, |captured.captures|, n + 1, left)
  {
    hide Matches, Guarded, StageOk, Done;
    var s := pm.nextStep;
    r' := Run(r.pos + [n], r.stages);
    OpenDeadline(steps, h, i, n, pm, r, h[n]);
    StageCaptures(steps, h, pm.captures, r, s, n, left);
    TraceKept(steps, h, i, pm.captures, Captured(steps[s], pm, h[n].event).captures, r, r');
  }

  lemma FreshExplained<E>(steps: seq<Step<E>>, h: seq<Action<E>>, i: nat)
    requires WellFormed(steps) && i < |h| && Opens(steps, h[i]) && |steps| > 1
    ensures var r := Run([i], [Stage(0, i, i), Stage(1, i, i + 1)]);
            Explains(steps, h, i, i + 1, Fresh(steps, h[i].event, h[i].ts), r)
  {
    hide Matches, Guarded;
    assert StepWellFormed(steps, 1);
  }

  /** Each partial a solo simulation keeps live has a run that accounts for everything it has been shown. */
  lemma {:induction false} LiveIsExplained<E>(steps: seq<Step<E>>, h: seq<Action<E>>, i: nat, n: nat) returns (r: Run)
    requires WellFormed(steps) && Inputs(h) && i < n <= |h| && Solo(steps, h, i, n).Live?
    ensures Explains(steps, h, i, n, Solo(steps, h, i, n).pm, r)
    decreases n
  {
    hide Explains, OfferOutcome, Fresh;
    if n == i + 1 {
      FreshExplained(steps, h, i);
      r := Run([i], [Stage(0, i, i), Stage(1, i, i + 1)]);
    } else {
      var pm := Solo(steps, h, i, n - 1).pm;
      var r0 := LiveIsExplained(steps, h, i, n - 1);
      if h[n - 1].Push? {
        r := OfferExplained(steps, h, i, n - 1, pm, r0);
      } else {
        r := r0;
        IdleExplained(steps, h, i, n - 1, pm, r);
      }
    }
  }

  lemma IdleExplained<E>(steps: seq<Step<E>>, h: seq<Action<E>>, i: nat, n: nat, pm: PartialMatch<E>, r: Run)
    requires n < |h| && !h[n].Push? && !h[n].Offer? && Explains(steps, h, i, n, pm, r)
    requires React(steps, pm, h[n]).Stay?
    ensures React(steps, pm, h[n]).pm == pm && Explains(steps, h, i, n + 1, pm, r)
  {
    hide Trace, StageOk, Done;
    if h[n].Tick? { OpenDeadline(steps, h, i, n, pm, r, h[n]); }
    StageSkips(steps, h, pm.captures, r, pm.nextStep, n, false);
  }

  /** A match a solo simulation emits is a genuine run of the pattern. */
  lemma GoneIsGenuine<E>(steps: seq<Step<E>>, h: seq<Action<E>>, i: nat, n: nat) returns (r: Run)
    requires WellFormed(steps) && Inputs(h) && i < n < |h|
    requires var f := Solo(steps, h, i, n + 1); f.Gone? && f.at == n && (f.outcome.Resolve? || f.outcome.Finish?)
    ensures var o := Solo(steps, h, i, n + 1).outcome;
            Genuine(steps, h, i, n, if o.Resolve? then o.resolved else o.finished, r)
  {
    hide Explains, OfferOutcome, Trace, StageOk;
    var pm, o := Solo(steps, h, i, n).pm, Solo(steps, h, i, n + 1).outcome;
    var r0 := LiveIsExplained(steps, h, i, n);
    r := r0;
    if o.Resolve? {
      ResolvedIsGenuine(steps, h, i, n, pm, r);
    } else {
      r := OfferExplained(steps, h, i, n, pm, r0);
    }
  }

  lemma ResolvedIsGenuine<E>(steps: seq<Step<E>>, h: seq<Action<E>>, i: nat, n: nat, pm: PartialMatch<E>, r: Run)
    requires WellFormed(steps) && Inputs(h) && n < |h| && Explains(steps, h, i, n, pm, r)
    requires React(steps, pm, h[n]).Resolve?
    ensures pm.captures == React(steps, pm, h[n]).resolved && Genuine(steps, h, i, n, pm.captures, r)
  {
    hide OfferOutcome, Trace, StageOk, Done;
    assert StepWellFormed(steps, pm.nextStep);
  }

  /** Every match the machine emits is a genuine run, opened at some action no later than the one that emits it. */
  lemma EmittedIsGenuine<E>(steps: seq<Step<E>>, h: seq<Action<E>>, n: nat, k: nat) returns (i: nat, r: Run)
    requires WellFormed(steps) && Inputs(h) && n < |h| && k < |Emitted(steps, h, n)|
    ensures i <= n && Genuine(steps, h, i, n, Emitted(steps, h, n)[k], r) && Roomy(steps, h, i, n)
  {
    hide Genuine, React, Emitted, Transition;
    MachineEmitsSolos(steps, h, n);
    var resolved, finished := SoloResolved(steps, h, n, n), SoloFinished(steps, h, n, n);
    ReverseAt(finished);
    i, r := n, Run([n], [Stage(0, n, n), Stage(1, n, n + 1)]);
    if k < |resolved| {
      i := ResolvedSource(steps, h, n, n, k);
      r := GoneIsGenuine(steps, h, i, n);
    } else if k < |resolved| + |finished| {
      i := FinishedSource(steps, h, n, n, |finished| - 1 - (k - |resolved|));
      r := GoneIsGenuine(steps, h, i, n);
    } else {
      OneStepIsGenuine(steps, h, n);
    }
  }

  lemma OneStepIsGenuine<E>(steps: seq<Step<E>>, h: seq<Action<E>>, n: nat)
    requires |steps| > 0 && n < |h| && Immediate(steps, h[n]) != []
    ensures |Immediate(steps, h[n])| == 1
    ensures Genuine(steps, h, n, n, Immediate(steps, h[n])[0], Run([n], [Stage(0, n, n), Stage(1, n, n + 1)]))
  {
  }

  lemma {:induction false} ReverseAt<T>(s: seq<T>)
    ensures |Reverse(s)| == |s|
    ensures forall k :: 0 <= k < |s| ==> Reverse(s)[k] == s[|s| - 1 - k]
  {
    if s != [] { ReverseAt(s[1..]); }
  }

  lemma {:induction false} ResolvedSource<E>(steps: seq<Step<E>>, h: seq<Action<E>>, m: nat, n: nat,
        k: nat) returns (i: nat)
    requires |steps| > 0 && m <= n < |h| && k < |SoloResolved(steps, h, m, n)|
    ensures i < m && var f := Solo(steps, h, i, n + 1);
            && f.Gone? && f.at == n && f.outcome == Resolve(SoloResolved(steps, h, m, n)[k])
            && Roomy(steps, h, i, n)
    decreases m
  {
    hide Solo, Roomy;
    if k < |SoloResolved(steps, h, m - 1, n)| {
      i := ResolvedSource(steps, h, m - 1, n, k);
    } else {
      i := m - 1;
    }
  }

  lemma {:induction false} FinishedSource<E>(steps: seq<Step<E>>, h: seq<Action<E>>, m: nat, n: nat,
        k: nat) returns (i: nat)
    requires |steps| > 0 && m <= n < |h| && k < |SoloFinished(steps, h, m, n)|
    ensures i < m && var f := Solo(steps, h, i, n + 1);
            && f.Gone? && f.at == n && f.outcome == Finish(SoloFinished(steps, h, m, n)[k])
            && Roomy(steps, h, i, n)
    decreases m
  {
    hide Solo, Roomy;
    if k < |SoloFinished(steps, h, m - 1, n)| {
      i := FinishedSource(steps, h, m - 1, n, k);
    } else {
      i := m - 1;
    }
  }
}
